/**
core/malloc.c: the allocator that updates its free list in place.  Each method
is tied to the state machine of HeapModel, so its theorems hold of every
sequence of calls.
*/
module Malloc {
  import opened FreeList
  import opened HeapModel
  import opened HeapTheorems
  import opened HeapUse

  /** What malloc(0) returns; free() ignores it. */
  const NOWHERE: nat := WORD - 1

  /** The gaps around a block are differences that a ssize_t can hold. */
  lemma InsideGaps(rest: seq<Block>, freeing: Block, lo: nat)
    requires rest != [] && Inside(rest, lo) && Within(freeing, lo) && freeing.size > 0 && rest[0].size > 0
    ensures SignedGap(freeing.addr, rest[0].End()) == freeing.addr - rest[0].End()
    ensures SignedGap(rest[0].addr, freeing.End()) == rest[0].addr - freeing.End()
  {
    assert Within(rest[0], lo);
    SignedGapIs(freeing.addr, rest[0].End());
    SignedGapIs(rest[0].addr, freeing.End());
  }

  /** Blocks that are freed lie within the window around the free list. */
  lemma LiveWithin(s: State, b: Block)
    requires Inv(s) && b in s.live
    ensures exists lo :: Inside(s.free, lo) && Within(b, lo)
  {
    var lo :| Inside(s.pool, lo);
    FreeInside(s, lo);
  }

  lemma PopulateWithin(s: State, r: Block)
    requires Inv(s) && Legal(s, Op.Populate(r))
    ensures exists lo :: Inside(s.free, lo) && Within(r, lo)
  {
    var lo :| Inside(s.pool + [r], lo);
    assert (s.pool + [r])[|s.pool|] == r;
    forall i | 0 <= i < |s.pool| ensures Within(s.pool[i], lo) { assert (s.pool + [r])[i] == s.pool[i]; }
    FreeInside(s, lo);
  }

  /** Blocks have left the caches, those of a later one only once all earlier ones are empty. */
  predicate CheapestFirst(before: seq<set<Block>>, after: seq<set<Block>>) {
    && |after| == |before| && (forall c :: 0 <= c < |after| ==> after[c] <= before[c])
    && forall b, c :: 0 <= b < c < |after| && after[c] != before[c] ==> after[b] == {}
  }

  lemma CheapestFirstThen(u: seq<set<Block>>, v: seq<set<Block>>, w: seq<set<Block>>)
    requires CheapestFirst(u, v) && CheapestFirst(v, w)
    ensures CheapestFirst(u, w)
  {
    forall b, c | 0 <= b < c < |w| && w[c] != u[c] ensures w[b] == {} {
      if v[c] != u[c] { assert v[b] == {} && w[b] <= v[b]; } else { assert w[c] != v[c]; }
    }
  }

  /** A legal run that only frees, and frees only cached blocks. */
  ghost predicate CacheFrees(s: State, ops: seq<Op>, cached: set<Block>) {
    LegalRun(s, ops) && forall op :: op in ops ==> op.Free? && op.block in cached
  }

  lemma CacheFreesConcat(s: State, x: seq<Op>, y: seq<Op>, cached: set<Block>)
    requires CacheFrees(s, x, cached) && CacheFrees(Run(s, x), y, cached)
    ensures CacheFrees(s, x + y, cached) && Run(s, x + y) == Run(Run(s, x), y)
  {
    RunConcat(s, x, y);
  }

  lemma {:induction false} RunConcat(s: State, x: seq<Op>, y: seq<Op>)
    ensures Run(s, x + y) == Run(Run(s, x), y)
    ensures LegalRun(s, x + y) <==> LegalRun(s, x) && LegalRun(Run(s, x), y)
    decreases |x|
  {
    if x == [] {
      assert x + y == y;
    } else {
      assert (x + y)[1..] == x[1..] + y;
      RunConcat(Apply(s, x[0]), x[1..], y);
    }
  }

  lemma {:induction false} FreesKeep(s: State, ops: seq<Op>, cached: set<Block>, y: Block)
    requires CacheFrees(s, ops, cached) && y in s.live && y !in cached
    ensures y in Run(s, ops).live
    decreases |ops|
  {
    if ops != [] {
      assert ops[0] in ops;
      FreesKeep(Apply(s, ops[0]), ops[1..], cached, y);
    }
  }

  lemma {:induction false} FreesShrink(s: State, ops: seq<Op>, cached: set<Block>)
    requires CacheFrees(s, ops, cached)
    ensures Run(s, ops).live <= s.live
    decreases |ops|
  {
    if ops != [] {
      assert ops[0] in ops;
      FreesShrink(Apply(s, ops[0]), ops[1..], cached);
    }
  }

  /**
  Allocation after some cached blocks were discarded: every other live block is
  still live and does not overlap the block handed out.
  */
  lemma AllocAfterDiscards(s: State, ops: seq<Op>, cached: set<Block>, size: nat, align: nat, offset: nat, y: Block)
    requires Inv(s) && CacheFrees(s, ops, cached) && Legal(s, Alloc(size, align, offset))
    requires y in s.live && y !in cached
    ensures var t := Run(s, ops);
            var p := Allocated(t, size, align, offset);
            && y in AfterAlloc(t, size, align, offset).live
            && (p != NULL ==> Disjoint(y, Block(p, RoundUp(size))))
  {
    RunInv(s, ops);
    FreesKeep(s, ops, cached, y);
    AllocCorrect(Run(s, ops), size, align, offset);
  }

  lemma PlainIsLegal(s: State, size: nat)
    requires size < WORD
    ensures Legal(s, Alloc(size, 1, 0))
  {
    assert Powers.Pow2(0) == 1;
  }

  lemma MinAligned(p: nat, virtOffset: int)
    requires AlignedAt(p, virtOffset, 0, MIN)
    ensures PointerAligned(p + HEADER, virtOffset)
  {
    assert p + virtOffset == MinBlocks((p + virtOffset) / MIN);
  }

  /** The block alloc_memblock() returns: live, inside the address space, and nobody else's. */
  lemma NewBlockFacts(s: State, ops: seq<Op>, cached: set<Block>, size: nat, align: nat, offset: nat)
    requires Inv(s) && CacheFrees(s, ops, cached) && Legal(s, Alloc(size, align, offset))
    ensures var t := Run(s, ops);
            var p := Allocated(t, size, align, offset);
            var u := AfterAlloc(t, size, align, offset);
            && s.live - cached <= u.live
            && u.live <= (if p == NULL then s.live else s.live + {Block(p, RoundUp(size))})
            && (p != NULL ==>
                  && Block(p, RoundUp(size)) in u.live && Block(p, RoundUp(size)) !in t.live
                  && size <= RoundUp(size) && RoundUp(size) >= MIN && p + RoundUp(size) < WORD
                  && AlignedAt(p, s.virtOffset, offset, Unit(align))
                  && forall y :: y in s.live - cached ==> Disjoint(y, Block(p, RoundUp(size))))
  {
    var t := Run(s, ops);
    var p := Allocated(t, size, align, offset);
    RunInv(s, ops);
    FreesShrink(s, ops, cached);
    AllocCorrect(t, size, align, offset);
    AllocInv(t, size, align, offset);
    RoundUpCases(size);
    forall y | y in s.live - cached
      ensures y in AfterAlloc(t, size, align, offset).live
      ensures p != NULL ==> Disjoint(y, Block(p, RoundUp(size)))
    {
      AllocAfterDiscards(s, ops, cached, size, align, offset, y);
    }
    if p != NULL {
      LiveBounded(AfterAlloc(t, size, align, offset), Block(p, RoundUp(size)));
      assert !Disjoint(Block(p, RoundUp(size)), Block(p, RoundUp(size)));
    }
  }

  /** The allocator gives up only when there is no room. */
  lemma NullMeansNoRoom(s: State, ops: seq<Op>, cached: set<Block>, size: nat, align: nat, offset: nat)
    requires Inv(s) && CacheFrees(s, ops, cached) && Legal(s, Alloc(size, align, offset))
    ensures var t := Run(s, ops);
            Allocated(t, size, align, offset) == NULL && RoundUp(size) != 0 ==>
              AfterAlloc(t, size, align, offset) == t && NoRoom(t, size, align, offset)
  {
    RunInv(s, ops);
    RoundUpCases(size);
    AllocCorrect(Run(s, ops), size, align, offset);
  }

  /** The statistics a split keeps. */
  lemma SplitValid(s: State, i: nat, pre: nat, actual: nat)
    requires Inv(s) && i < |s.free| && pre + actual <= s.free[i].size
    requires actual >= MIN && actual % MIN == 0
    ensures var t := SplitState(s, i, pre, actual);
            && Inv(t)
            && Total(t.live) == Total(s.live) + actual
            && Sum(t.free) + t.leaked == Sum(s.free) + s.leaked - actual
  {
    var t := SplitState(s, i, pre, actual);
    var block := Block(s.free[i].addr + pre, actual);
    SplitInv(s, i, pre, actual);
    SplitSum(s.free, i, pre, actual);
    FreshBlock(s, i, pre, actual);
    TotalRemove(t.live, block);
    assert t.live - {block} == s.live;
  }

  /** The bytes of an autosized block start right behind a size word at a minimum-block boundary. */
  ghost predicate PointerAligned(ptr: nat, virtOffset: int) {
    exists k :: ptr - HEADER + virtOffset == MinBlocks(k)
  }

  function MinBlocks(k: int): int {
    k * MIN
  }

  lemma UpdateTwice(m: map<nat, seq<bv8>>, d: map<nat, seq<bv8>>, e: map<nat, seq<bv8>>, k: nat)
    requires k in d && k in e && d == m[k := d[k]] && e == d[k := e[k]]
    ensures e == m[k := e[k]]
  {
  }

  /** Equal up to the shorter length. */
  predicate SamePrefix(x: seq<bv8>, y: seq<bv8>) {
    if |x| < |y| then x <= y else y <= x
  }

  // Autosized blocks: the size word in front of each block matches the bytes behind it.

  ghost predicate Autosized(sizes: map<nat, nat>, data: map<nat, seq<bv8>>, live: set<Block>, cached: set<Block>,
                            p: nat) {
    && p in data && HEADER < p < NOWHERE && p - HEADER in sizes
    && sizes[p - HEADER] == |data[p]| + HEADER < WORD
    && RoundUp(sizes[p - HEADER]) != 0
    && Block(p - HEADER, RoundUp(sizes[p - HEADER])) in live
    && Block(p - HEADER, RoundUp(sizes[p - HEADER])) !in cached
  }

  ghost predicate AllAutosized(sizes: map<nat, nat>, data: map<nat, seq<bv8>>, live: set<Block>, cached: set<Block>) {
    forall p :: p in data ==> Autosized(sizes, data, live, cached, p)
  }

  lemma AutosizedCopy(sizes: map<nat, nat>, data: map<nat, seq<bv8>>, live: set<Block>, cached: set<Block>,
                      p: nat, bytes: seq<bv8>)
    requires AllAutosized(sizes, data, live, cached) && p in data && |bytes| == |data[p]|
    ensures AllAutosized(sizes, data[p := bytes], live, cached)
  {
  }

  lemma AutosizedFree(sizes: map<nat, nat>, data: map<nat, seq<bv8>>, live: set<Block>, cached: set<Block>, p: nat)
    requires AllAutosized(sizes, data, live, cached) && p in data
    ensures Autosized(sizes, data, live, cached, p)
    ensures AllAutosized(sizes - {p - HEADER}, data - {p}, live - {Block(p - HEADER, RoundUp(sizes[p - HEADER]))},
            cached)
  {
  }

  /** The same blocks without p, when p's block may be discarded. */
  lemma AutosizedCache(sizes: map<nat, nat>, data: map<nat, seq<bv8>>, live: set<Block>, cached: set<Block>, p: nat)
    requires AllAutosized(sizes, data, live, cached) && p in data
    ensures Autosized(sizes, data, live, cached, p)
    ensures AllAutosized(sizes - {p - HEADER}, data - {p}, live,
            cached + {Block(p - HEADER, RoundUp(sizes[p - HEADER]))})
  {
  }

  /** All blocks of some caches. */
  function AllCached(caches: seq<set<Block>>): set<Block> {
    set c, b | 0 <= c < |caches| && b in caches[c] :: b
  }

  lemma CachesAdd(caches: seq<set<Block>>, c: nat, b: Block)
    requires c < |caches|
    ensures AllCached(caches[c := caches[c] + {b}]) == AllCached(caches) + {b}
  {
    var after := caches[c := caches[c] + {b}];
    assert b in after[c];
    forall x | x in AllCached(caches) ensures x in AllCached(after) {
      var d :| 0 <= d < |caches| && x in caches[d];
      assert x in after[d];
    }
  }

  lemma CachesMore(caches: seq<set<Block>>)
    ensures AllCached(caches + [{}]) == AllCached(caches)
  {
    forall x | x in AllCached(caches) ensures x in AllCached(caches + [{}]) {
      var d :| 0 <= d < |caches| && x in caches[d];
      assert x in (caches + [{}])[d];
    }
  }

  /** Autosized blocks survive as long as their blocks do and no discarder claims them. */
  lemma AutosizedKeep(sizes: map<nat, nat>, data: map<nat, seq<bv8>>, live: set<Block>, cached: set<Block>,
                      live': set<Block>, cached': set<Block>)
    requires AllAutosized(sizes, data, live, cached)
    requires live - cached <= live' && cached' <= cached
    ensures AllAutosized(sizes, data, live', cached')
  {
  }

  lemma AutosizedInUse(sizes: map<nat, nat>, data: map<nat, seq<bv8>>, live: set<Block>, cached: set<Block>)
    requires AllAutosized(sizes, data, live, cached)
    ensures forall p :: p in data ==> NULL < p != NOWHERE && AutoBlock(p, |data[p]|) in live - cached
  {
    forall p | p in data ensures NULL < p != NOWHERE && AutoBlock(p, |data[p]|) in live - cached {
      assert Autosized(sizes, data, live, cached, p);
    }
  }

  lemma AutosizedApart(sizes: map<nat, nat>, data: map<nat, seq<bv8>>, live: set<Block>, cached: set<Block>, b: Block)
    requires AllAutosized(sizes, data, live, cached) && b.size > 0
    requires forall y :: y in live - cached ==> Disjoint(y, b)
    ensures forall q :: q in data ==> q != b.addr + HEADER
  {
    forall q | q in data ensures q != b.addr + HEADER {
      assert Autosized(sizes, data, live, cached, q);
      assert Disjoint(Block(q - HEADER, RoundUp(sizes[q - HEADER])), b);
    }
  }

  lemma AutosizedAdd(sizes: map<nat, nat>, data: map<nat, seq<bv8>>, live: set<Block>, cached: set<Block>,
                     block: nat, total: nat, bytes: seq<bv8>)
    requires AllAutosized(sizes, data, live, cached)
    requires 0 < block && block + HEADER < NOWHERE && |bytes| + HEADER == total < WORD && RoundUp(total) != 0
    requires Block(block, RoundUp(total)) in live
    requires Block(block, RoundUp(total)) !in cached
    requires block + HEADER !in data
    ensures AllAutosized(sizes[block := total], data[block + HEADER := bytes], live, cached)
  {
  }

  /** A pointer from malloc() has been freed, and nothing else. */
  ghost predicate Released(u: Use, v: Use, ptr: nat) {
    && ptr in u.data && ptr !in v.data
    && var given := {AutoBlock(ptr, |u.data[ptr]|)};
       Changed(u, v, {}, given, {ptr}) && PointersGone(u.data, v.data, given)
  }

  /** What realloc() takes: a block for the new pointer, if there is one. */
  function ReallocTakes(newPtr: nat, newSize: nat): set<Block> {
    if newPtr == NULL || newSize == 0 then {} else {AutoBlock(newPtr, newSize)}
  }

  /** What it gives back: the block behind the old pointer, unless it fails. */
  function ReallocGives(u: Use, oldPtr: nat, newPtr: nat): set<Block> {
    if newPtr != NULL && oldPtr in u.data then {AutoBlock(oldPtr, |u.data[oldPtr]|)} else {}
  }

  ghost predicate Reallocated(u: Use, v: Use, oldPtr: nat, newPtr: nat, newSize: nat) {
    var given := ReallocGives(u, oldPtr, newPtr);
    && Changed(u, v, ReallocTakes(newPtr, newSize), given, if newPtr == NULL then {} else {oldPtr})
    && PointersGone(u.data, v.data, given) && (newPtr != NULL ==> oldPtr !in v.data)
  }

  /** A new block taken, then the old one given back. */
  lemma ReallocSteps(u: Use, m: Use, v: Use, oldPtr: nat, newPtr: nat, newSize: nat)
    requires newPtr != NULL && (oldPtr in u.data <==> oldPtr in m.data)
    requires Changed(u, m, ReallocTakes(newPtr, newSize), {}, {}) && (newSize > 0 ==> RoundUp(newSize + HEADER) > 0)
    requires oldPtr in u.data ==> AutoBlock(oldPtr, |u.data[oldPtr]|) in InUse(u)
    requires if oldPtr in m.data then Released(m, v, oldPtr) else v == m
    ensures Reallocated(u, v, oldPtr, newPtr, newSize)
  {
    if oldPtr in u.data {
      var taken, b := ReallocTakes(newPtr, newSize), AutoBlock(oldPtr, |u.data[oldPtr]|);
      ChangedThen(u, m, v, taken, {}, {}, {}, {b}, {oldPtr});
      assert b in taken ==> b.size > 0 && Disjoint(b, b);
      assert taken - {b} + {} == taken && {} + ({b} - taken) == {b};
    }
  }

  class Heap {
    var free: seq<Block>
    var freemem: int
    var usedmem: int
    var maxusedmem: int

    /** Blocks that each cache discarder could give back, cheapest discarder first. */
    var caches: seq<set<Block>>

    /** The size words stored in front of autosized blocks, and the bytes behind them. */
    var sizes: map<nat, nat>
    var data: map<nat, seq<bv8>>

    const virtOffset: int
    ghost var live: set<Block>
    ghost var leaked: nat
    ghost var pool: seq<Block>

    ghost function Model(): State
      reads this`free, this`live, this`leaked, this`pool
    {
      State(free, live, leaked, pool, virtOffset)
    }

    /** Everything some discarder could still give back. */
    ghost function Cached(): set<Block>
      reads this`caches
    {
      AllCached(caches)
    }

    ghost function InHand(): Use
      reads this`live, this`caches, this`data
    {
      Use(live, Cached(), data)
    }

    ghost predicate CachesLive()
      reads this`caches, this`live
    {
      && (forall c :: 0 <= c < |caches| ==> caches[c] <= live)
      && (forall c, d :: 0 <= c < d < |caches| ==> caches[c] !! caches[d])
    }

    ghost predicate NothingCached()
      reads this`caches
    {
      forall c :: 0 <= c < |caches| ==> caches[c] == {}
    }

    /** There is nothing left to discard, and no room for a request. */
    ghost predicate Exhausted(size: nat, align: nat, offset: nat)
      reads this
    {
      NothingCached() && NoRoom(Model(), size, align, offset)
    }

    ghost predicate Valid()
      reads this`free, this`live, this`leaked, this`pool, this`freemem, this`usedmem, this`maxusedmem, this`caches
    {
      && Inv(Model())
      && freemem == Sum(free) + leaked
      && usedmem == Total(live) <= maxusedmem
      && CachesLive()
    }

    constructor (virtOffset: int)
      ensures Valid() && Model() == State([], {}, 0, [], virtOffset)
      ensures caches == [] && sizes == map[] && data == map[]
    {
      this.virtOffset := virtOffset;
      free, live, leaked, pool := [], {}, 0, [];
      freemem, usedmem, maxusedmem := 0, 0, 0;
      caches, sizes, data := [], map[], map[];
      new;
      assert forall a :: !LiveCovers({}, a);
      assert Inside([], 0);
    }

    /** The insert/merge loop of free_memblock(). */
    method InsertIntoFreeList(ptr: nat, actual: nat)
      requires WellFormed(free) && DisjointFromAll(Block(ptr, actual), free)
      requires ptr > 0 && actual >= MIN && exists lo :: Inside(free, lo) && Within(Block(ptr, actual), lo)
      modifies this`free
      ensures free == InsertMerge(old(free), Block(ptr, actual))
    {
      ghost var target := InsertMerge(free, Block(ptr, actual));
      ghost var lo :| Inside(free, lo) && Within(Block(ptr, actual), lo);
      var before, rest := [], free;
      var freeing := Block(ptr, actual);
      var gapAfter := -1;
      while rest != []
        invariant Inserting(rest, freeing) && Inside(rest, lo) && Within(freeing, lo) && freeing.size > 0
        invariant target == before + InsertMerge(rest, freeing)
        invariant freeing.size == actual || (rest != [] ==> freeing.addr < rest[0].addr)
        invariant rest == [] ==> gapAfter < 0
        decreases |rest|
      {
        var block := rest[0];
        InsertCompare(rest, freeing);
        InsideGaps(rest, freeing, lo);
        var gapBefore := SignedGap(freeing.addr, block.End());
        gapAfter := SignedGap(block.addr, freeing.End());
        if gapBefore == 0 {
          InsertJoin(rest, freeing);
          freeing := Block(block.addr, block.size + actual);
          rest := rest[1..];
        } else {
          if gapAfter >= 0 {
            break;
          }
          InsertSkip(before, rest, freeing);
          before, rest := before + [block], rest[1..];
        }
      }
      InsertStop(before, rest, freeing);
      if gapAfter == 0 {
        freeing := Block(freeing.addr, freeing.size + rest[0].size);
        rest := rest[1..];
      }
      free := before + [freeing] + rest;
    }

    /** free_memblock() */
    method FreeMemblock(ptr: nat, size: nat)
      requires 0 < size < WORD && RoundUp(size) != 0
      requires ptr != NULL ==> WellFormed(free) && DisjointFromAll(Block(ptr, RoundUp(size)), free)
      requires ptr != NULL ==> exists lo :: Inside(free, lo) && Within(Block(ptr, RoundUp(size)), lo)
      modifies this`free, this`freemem, this`usedmem, this`live
      ensures ptr == NULL ==> Model() == old(Model()) && freemem == old(freemem) && usedmem == old(usedmem)
      ensures ptr != NULL ==>
                && Model() == AfterFree(old(Model()), Block(ptr, RoundUp(size)))
                && freemem == old(freemem) + RoundUp(size)
                && usedmem == old(usedmem) - RoundUp(size)
      ensures old(Valid()) && Block(ptr, RoundUp(size)) in old(live) && Block(ptr, RoundUp(size)) !in old(Cached()) ==>
                Valid()
    {
      if ptr == NULL {
        return;
      }
      RoundUpCases(size);
      var actual := RoundUp(size);
      ghost var b := Block(ptr, actual);
      InsertIntoFreeList(ptr, actual);
      freemem, usedmem := freemem + actual, usedmem - actual;
      live := live - {b};
      if old(Valid()) && b in old(live) {
        FreeInv(old(Model()), b);
        TotalRemove(old(live), b);
        InsertMergeSum(old(free), b);
      }
    }

    /** mpopulate(): give the region [start, start + len) to the allocator. */
    method Populate(start: nat, len: nat)
      requires Valid() && len < WORD
      requires Legal(Model(), HeapModel.Populate(Block(start, len / MIN * MIN)))
      modifies this`free, this`freemem, this`usedmem, this`live, this`pool
      ensures Valid() && Model() == AfterPopulate(old(Model()), Block(start, len / MIN * MIN))
      ensures freemem == old(freemem) + len / MIN * MIN && usedmem == old(usedmem)
    {
      var len' := len / MIN * MIN;
      ghost var r := Block(start, len');
      PopulateApart(Model(), r);
      PopulateInv(Model(), r);
      PopulateWithin(Model(), r);
      InsertMergeSum(free, r);
      RoundUpMultiple(len');
      assert r !in live by { assert !Disjoint(r, r); }
      FreeMemblock(start, len');
      usedmem := usedmem + len';
      pool := pool + [r];
      assert old(live) - {r} == old(live);
      assert Model() == AfterPopulate(old(Model()), r);
    }

    /** discard_cache(): the cheapest non-empty cache gives back some of its blocks. */
    method DiscardCache() returns (discarded: nat, ghost ops: seq<Op>)
      requires Valid()
      modifies this`free, this`freemem, this`usedmem, this`live, this`caches
      ensures Valid()
      ensures discarded == 0 <==> old(NothingCached())
      ensures discarded == 0 ==> NothingCached() && Model() == old(Model()) && ops == []
      ensures discarded > 0 ==> live < old(live)
      ensures CacheFrees(old(Model()), ops, old(Cached())) && Model() == Run(old(Model()), ops)
      ensures Cached() <= old(Cached()) && CheapestFirst(old(caches), caches)
    {
      ops := [];
      discarded := 0;
      var c := 0;
      while c < |caches|
        invariant 0 <= c <= |caches|
        invariant forall d :: 0 <= d < c ==> caches[d] == {}
      {
        if caches[c] != {} {
          discarded, ops := DiscardFrom(c);
          return;
        }
        c := c + 1;
      }
    }

    /** One discarder: frees at least one of its blocks, and however many more it chooses. */
    method DiscardFrom(c: nat) returns (discarded: nat, ghost ops: seq<Op>)
      requires Valid() && c < |caches| && caches[c] != {}
      modifies this`free, this`freemem, this`usedmem, this`live, this`caches
      ensures Valid() && discarded > 0
      ensures live < old(live) && |caches| == |old(caches)|
      ensures CacheFrees(old(Model()), ops, old(caches)[c]) && Model() == Run(old(Model()), ops)
      ensures caches[c] < old(caches)[c] && forall d :: 0 <= d < |caches| && d != c ==> caches[d] == old(caches)[d]
    {
      discarded, ops := 0, [];
      var more := true;
      while more && caches[c] != {}
        invariant Valid() && |caches| == |old(caches)|
        invariant more || discarded > 0
        invariant discarded == 0 ==> caches[c] != {}
        invariant live <= old(live) && (discarded > 0 ==> live < old(live) && caches[c] < old(caches)[c])
        invariant CacheFrees(old(Model()), ops, old(caches)[c]) && Model() == Run(old(Model()), ops)
        invariant caches[c] <= old(caches)[c] && forall d :: 0 <= d < |caches| && d != c ==> caches[d] == old(caches)[d]
        decreases caches[c]
      {
        var b :| b in caches[c];
        DropFromCache(c, b);
        RunAppend(old(Model()), ops, HeapModel.Free(b));
        discarded, ops := discarded + 1, ops + [HeapModel.Free(b)];
        more := *;
      }
    }

    method DropFromCache(c: nat, b: Block)
      requires Valid() && c < |caches| && b in caches[c]
      modifies this`free, this`freemem, this`usedmem, this`live, this`caches
      ensures Valid() && Model() == AfterFree(old(Model()), b)
      ensures caches == old(caches)[c := old(caches)[c] - {b}]
    {
      LiveBounded(Model(), b);
      LiveWithin(Model(), b);
      assert b in live;
      caches := caches[c := caches[c] - {b}];
      assert b !in Cached();
      FreeMemblock(b.addr, b.size);
    }

    /** Another cache discarder, which holds nothing yet. */
    method AddDiscarder()
      requires Valid() && AutosizedValid()
      modifies this`caches
      ensures Valid() && AutosizedValid() && caches == old(caches) + [{}] && InHand() == old(InHand())
    {
      CachesMore(caches);
      caches := caches + [{}];
    }

    /** Memory from malloc() becomes cached data: from now on the discarder decides when to free it. */
    method HandToDiscarder(c: nat, ptr: nat)
      requires Valid() && AutosizedValid() && c < |caches| && ptr in data
      modifies this`caches, this`sizes, this`data
      ensures Valid() && AutosizedValid() && data == old(data) - {ptr}
      ensures var b := AutoBlock(ptr, |old(data)[ptr]|);
              && b in live && Cached() == old(Cached()) + {b} && caches == old(caches)[c := old(caches)[c] + {b}]
              && Undisturbed(old(InHand()), InHand(), {b}, {ptr})
    {
      AutosizedFree(sizes, data, live, Cached(), ptr);
      var block := ptr - HEADER;
      var b := Block(block, RoundUp(sizes[block]));
      AutosizedCache(sizes, data, live, Cached(), ptr);
      CachesAdd(caches, c, b);
      caches := caches[c := caches[c] + {b}];
      sizes, data := sizes - {block}, data - {ptr};
    }

    /** Search through the blocks for the first one with enough space. */
    method FindFit(actual: nat, offset: nat, unit: nat) returns (i: nat)
      requires unit > 0
      ensures i == FirstFit(Model(), 0, actual, offset, unit)
    {
      i := 0;
      while i < |free|
        invariant 0 <= i <= |free|
        invariant FirstFit(Model(), 0, actual, offset, unit) == FirstFit(Model(), i, actual, offset, unit)
      {
        var preSize := PreSize(free[i].addr, virtOffset, offset, unit);
        if free[i].size < preSize || free[i].size - preSize < actual {
          i := i + 1;
          continue;
        }
        return;
      }
    }

    /** One pass of alloc_memblock(): take the first block that fits, if there is one. */
    method TryAlloc(size: nat, align: nat, offset: nat) returns (ptr: nat)
      requires Valid() && size < WORD && RoundUp(size) != 0
      modifies this`free, this`freemem, this`usedmem, this`maxusedmem, this`live, this`leaked
      ensures Valid()
      ensures ptr == Allocated(old(Model()), size, align, offset)
      ensures Model() == AfterAlloc(old(Model()), size, align, offset)
    {
      var actual, unit := RoundUp(size), Unit(align);
      RoundUpCases(size);
      var i := FindFit(actual, offset, unit);
      if i == |free| {
        return NULL;
      }
      assert Fits(Model(), i, actual, offset, unit);
      var preSize := PreSize(free[i].addr, virtOffset, offset, unit);
      ptr := free[i].addr + preSize;
      TakeBlock(i, preSize, actual);
    }

    /** alloc_memblock(): first fit, discarding cached data until something fits. */
    method AllocMemblock(size: nat, align: nat, offset: nat) returns (ptr: nat, ghost discards: seq<Op>)
      requires Valid() && Legal(Model(), Alloc(size, align, offset))
      modifies this`free, this`freemem, this`usedmem, this`maxusedmem, this`live, this`leaked, this`caches
      ensures Valid()
      ensures CacheFrees(old(Model()), discards, old(Cached()))
      ensures ptr == Allocated(Run(old(Model()), discards), size, align, offset)
      ensures Model() == AfterAlloc(Run(old(Model()), discards), size, align, offset)
      ensures ptr == NULL ==> RoundUp(size) == 0 || NothingCached()
      ensures RoundUp(size) == 0 || Allocated(old(Model()), size, align, offset) != NULL ==>
              discards == [] && caches == old(caches)
      ensures Cached() <= old(Cached()) && Cached() <= Run(old(Model()), discards).live
      ensures CheapestFirst(old(caches), caches)
    {
      ghost var s := Model();
      discards := [];
      if RoundUp(size) == 0 {
        return NULL, discards;
      }
      ghost var t := s;
      ptr := TryAlloc(size, align, offset);
      while ptr == NULL
        invariant Valid()
        invariant CacheFrees(s, discards, old(Cached())) && t == Run(s, discards)
        invariant ptr == Allocated(t, size, align, offset) && Model() == AfterAlloc(t, size, align, offset)
        invariant (discards == [] && caches == old(caches)) || Allocated(s, size, align, offset) == NULL
        invariant Cached() <= old(Cached()) && Cached() <= t.live && CheapestFirst(old(caches), caches)
        decreases ptr == NULL, live
      {
        var discarded;
        ghost var v := caches;
        discarded, discards := DiscardMore(s, discards, old(Cached()));
        CheapestFirstThen(old(caches), v, caches);
        if discarded == 0 {
          return;
        }
        t := Model();
        ptr := TryAlloc(size, align, offset);
      }
    }

    /** Another discard, after others. */
    method DiscardMore(ghost s: State, ghost before: seq<Op>, ghost cached: set<Block>)
      returns (discarded: nat, ghost discards: seq<Op>)
      requires Valid() && CacheFrees(s, before, cached) && Model() == Run(s, before) && Cached() <= cached
      modifies this`free, this`freemem, this`usedmem, this`live, this`caches
      ensures Valid() && CacheFrees(s, discards, cached) && Model() == Run(s, discards)
      ensures Cached() <= old(Cached()) && Cached() <= live && CheapestFirst(old(caches), caches)
      ensures if discarded == 0 then NothingCached() && discards == before && live == old(live) else live < old(live)
    {
      ghost var t := Model();
      ghost var ops;
      discarded, ops := DiscardCache();
      assert CacheFrees(t, ops, cached);
      CacheFreesConcat(s, before, ops, cached);
      discards := before + ops;
    }

    /** Split block i into "pre", allocated and "post" parts; the free parts stay listed. */
    method SplitBlock(i: nat, preSize: nat, actual: nat)
      requires i < |free| && preSize + actual <= free[i].size
      modifies this`free
      ensures free == Split(old(free), i, preSize, actual)
    {
      SplitInPlaceIsSplit(free, i, preSize, actual);
      var pre := free[i];
      var postSize := pre.size - preSize - actual;
      if postSize >= MIN {
        free := free[..i + 1] + [Block(pre.addr + preSize + actual, postSize)] + free[i + 1..];
      }
      free := free[i := Block(pre.addr, preSize)];
      if preSize < MIN {
        free := free[..i] + free[i + 1..];
      }
    }

    /** Take `actual` bytes out of block i and update the statistics. */
    method TakeBlock(i: nat, preSize: nat, actual: nat)
      requires Valid() && i < |free| && preSize + actual <= free[i].size
      requires actual >= MIN && actual % MIN == 0
      modifies this`free, this`freemem, this`usedmem, this`maxusedmem, this`live, this`leaked
      ensures Valid() && Model() == SplitState(old(Model()), i, preSize, actual)
    {
      ghost var before, pre := Model(), free[i];
      SplitBlock(i, preSize, actual);
      freemem, usedmem := freemem - actual, usedmem + actual;
      if usedmem > maxusedmem {
        maxusedmem := usedmem;
      }
      leaked := leaked + Scraps(pre, preSize, actual);
      live := live + {Block(pre.addr + preSize, actual)};
      assert Model() == SplitState(before, i, preSize, actual);
      SplitValid(before, i, preSize, actual);
    }

    // -------------------------------------------------------------------
    // realloc(), malloc() and free()
    // -------------------------------------------------------------------

    /** Every block given out by malloc() still has its size word and its bytes. */
    ghost predicate AutosizedValid()
      reads this`sizes, this`data, this`live, this`caches
    {
      AllAutosized(sizes, data, live, Cached())
    }

    /** malloc_dma_offset(): a block that overlaps nothing still in use. */
    method MallocDma(size: nat, align: nat, offset: nat) returns (ptr: nat)
      requires Valid() && AutosizedValid() && Legal(Model(), Alloc(size, align, offset))
      modifies this`free, this`freemem, this`usedmem, this`maxusedmem, this`live, this`leaked, this`caches
      ensures Valid() && AutosizedValid()
      ensures ptr == NULL ==> RoundUp(size) == 0 || Exhausted(size, align, offset)
      ensures ptr != NULL ==>
                && size <= RoundUp(size) && RoundUp(size) >= MIN && ptr + RoundUp(size) < WORD
                && AlignedAt(ptr, virtOffset, offset, Unit(align))
      ensures Changed(old(InHand()), InHand(), if ptr == NULL then {} else {Block(ptr, RoundUp(size))}, {}, {})
    {
      ghost var s := Model();
      ghost var ops;
      ptr, ops := AllocMemblock(size, align, offset);
      NullMeansNoRoom(s, ops, old(Cached()), size, align, offset);
      NewBlockFacts(s, ops, old(Cached()), size, align, offset);
      AutosizedKeep(sizes, data, s.live, old(Cached()), live, Cached());
      if ptr != NULL { TakenOne(old(InHand()), InHand(), Block(ptr, RoundUp(size))); }
    }

    /** free_dma() */
    method FreeDma(ptr: nat, size: nat)
      requires Valid() && AutosizedValid() && 0 < size < WORD && RoundUp(size) != 0
      requires ptr != NULL ==> Block(ptr, RoundUp(size)) in live && Block(ptr, RoundUp(size)) !in Cached()
      requires ptr != NULL ==> forall q :: q in data ==> q != ptr + HEADER
      modifies this`free, this`freemem, this`usedmem, this`live
      ensures Valid() && AutosizedValid()
      ensures live == if ptr == NULL then old(live) else old(live) - {Block(ptr, RoundUp(size))}
      ensures ptr != NULL ==> Model() == AfterFree(old(Model()), Block(ptr, RoundUp(size)))
      ensures ptr != NULL ==>
                var given := {Block(ptr, RoundUp(size))};
                Changed(old(InHand()), InHand(), {}, given, {}) && PointersGone(data, data, given)
    {
      if ptr != NULL { LiveWithin(Model(), Block(ptr, RoundUp(size))); }
      FreeMemblock(ptr, size);
      forall q | q in data ensures Autosized(sizes, data, live, Cached(), q) {
        assert Autosized(sizes, data, old(live), Cached(), q);
      }
      if ptr != NULL { GivenOne(old(InHand()), InHand(), Block(ptr, RoundUp(size))); }
    }

    /** Write the size word; the bytes behind it hold whatever was there before. */
    method StoreSize(block: nat, total: nat, ghost u: Use)
      requires AutosizedValid() && HEADER <= total < WORD && RoundUp(total) != 0
      requires 0 < block && block + HEADER < NOWHERE && u.data == data && AllAutosized(sizes, data, u.live, u.cached)
      requires Changed(u, InHand(), {Block(block, RoundUp(total))}, {}, {})
      modifies this`sizes, this`data
      ensures AutosizedValid()
      ensures block + HEADER !in old(data) && block + HEADER in data && |data[block + HEADER]| == total - HEADER
      ensures data == old(data)[block + HEADER := data[block + HEADER]]
      ensures Changed(u, InHand(), {AutoBlock(block + HEADER, total - HEADER)}, {}, {})
    {
      TakenApart(u, InHand(), Block(block, RoundUp(total)));
      AutosizedApart(sizes, data, u.live, u.cached, Block(block, RoundUp(total)));
      assert |seq(total - HEADER, i => 0 as bv8)| == total - HEADER;
      var bytes: seq<bv8> :| |bytes| == total - HEADER;
      AutosizedAdd(sizes, data, live, Cached(), block, total, bytes);
      sizes := sizes[block := total];
      ghost var m := InHand();
      data := data[block + HEADER := bytes];
      TakenPointer(u, m, InHand(), block + HEADER, total - HEADER);
    }

    /** A block with its size word. */
    method AllocTotal(total: nat) returns (block: nat)
      requires Valid() && AutosizedValid() && HEADER < total < WORD
      modifies this`free, this`freemem, this`usedmem, this`maxusedmem, this`live, this`leaked, this`caches,
               this`sizes, this`data
      ensures Valid() && AutosizedValid()
      ensures block == NULL ==>
                data == old(data) && sizes == old(sizes) && (RoundUp(total) == 0 || Exhausted(total, 1, 0))
      ensures block != NULL ==>
                var ptr := block + HEADER;
                && ptr !in old(data) && ptr < NOWHERE && PointerAligned(ptr, virtOffset)
                && ptr in data && |data[ptr]| == total - HEADER && data == old(data)[ptr := data[ptr]]
      ensures var taken := if block == NULL then {} else {AutoBlock(block + HEADER, total - HEADER)};
              Changed(old(InHand()), InHand(), taken, {}, {})
    {
      PlainIsLegal(Model(), total);
      block := MallocDma(total, 1, 0);
      if block != NULL {
        MinAligned(block, virtOffset);
        StoreSize(block, total, old(InHand()));
      }
    }

    /** The allocating half of realloc(), and all of malloc() for a non-zero size. */
    method AllocAutosized(size: nat) returns (ptr: nat)
      requires Valid() && AutosizedValid() && 0 < size < WORD
      modifies this`free, this`freemem, this`usedmem, this`maxusedmem, this`live, this`leaked, this`caches,
               this`sizes, this`data
      ensures Valid() && AutosizedValid()
      ensures ptr == NULL ==> data == old(data) && sizes == old(sizes)
      ensures ptr == NULL ==> size > WORD - MIN - HEADER || Exhausted(size + HEADER, 1, 0)
      ensures ptr != NULL ==>
                && ptr !in old(data) && ptr != NOWHERE && PointerAligned(ptr, virtOffset)
                && ptr in data && |data[ptr]| == size && data == old(data)[ptr := data[ptr]]
      ensures Changed(old(InHand()), InHand(), if ptr == NULL then {} else {AutoBlock(ptr, size)}, {}, {})
    {
      var total := if size + HEADER < WORD then size + HEADER else size + HEADER - WORD;
      if total < size {
        return NULL;
      }
      RoundUpCases(total);
      var block := AllocTotal(total);
      ptr := if block == NULL then NULL else block + HEADER;
    }

    /** memcpy() of as many old bytes as the new block can take. */
    method CopyContents(oldPtr: nat, newPtr: nat, ghost u: Use, ghost taken: set<Block>)
      requires AutosizedValid() && oldPtr in data && newPtr in data && oldPtr != newPtr
      requires Changed(u, InHand(), taken, {}, {}) && newPtr !in u.data
      modifies this`data
      ensures AutosizedValid() && data.Keys == old(data).Keys
      ensures data == old(data)[newPtr := data[newPtr]]
      ensures |data[newPtr]| == |old(data)[newPtr]| && SamePrefix(old(data)[oldPtr], data[newPtr])
      ensures Changed(u, InHand(), taken, {}, {})
    {
      ghost var m := InHand();
      var o, n := data[oldPtr], data[newPtr];
      var k := if |o| < |n| then |o| else |n|;
      AutosizedCopy(sizes, data, live, Cached(), newPtr, o[..k] + n[k..]);
      data := data[newPtr := o[..k] + n[k..]];
      TakenWritten(u, m, InHand(), taken, newPtr);
    }

    /** The freeing half of realloc(), and all of free(): the size comes from the word in front of the block. */
    method FreeAutosized(ptr: nat)
      requires Valid() && AutosizedValid() && ptr in data
      modifies this`free, this`freemem, this`usedmem, this`live, this`sizes, this`data
      ensures Valid() && AutosizedValid() && data == old(data) - {ptr}
      ensures live == old(live) - {Block(ptr - HEADER, RoundUp(|old(data)[ptr]| + HEADER))}
      ensures Released(old(InHand()), InHand(), ptr)
    {
      AutosizedFree(sizes, data, live, Cached(), ptr);
      var block := ptr - HEADER;
      var total := sizes[block];
      LiveWithin(Model(), Block(block, RoundUp(total)));
      FreeMemblock(block, total);
      sizes := sizes - {block};
      data := data - {ptr};
    }

    /** The first half of realloc(): get the new block and copy the old bytes into it. */
    method AllocCopy(oldPtr: nat, newSize: nat) returns (newPtr: nat)
      requires Valid() && AutosizedValid() && 0 < newSize < WORD
      requires oldPtr == NULL || oldPtr == NOWHERE || oldPtr in data
      modifies this`free, this`freemem, this`usedmem, this`maxusedmem, this`live, this`leaked, this`caches,
               this`sizes, this`data
      ensures Valid() && AutosizedValid()
      ensures newPtr == NULL ==> data == old(data) && sizes == old(sizes)
      ensures newPtr == NULL ==> newSize > WORD - MIN - HEADER || Exhausted(newSize + HEADER, 1, 0)
      ensures newPtr != NULL ==>
                && newPtr !in old(data) && newPtr != NOWHERE && PointerAligned(newPtr, virtOffset)
                && newPtr in data && |data[newPtr]| == newSize && data == old(data)[newPtr := data[newPtr]]
                && (oldPtr in old(data) ==> SamePrefix(old(data)[oldPtr], data[newPtr]))
      ensures Changed(old(InHand()), InHand(), if newPtr == NULL then {} else {AutoBlock(newPtr, newSize)}, {}, {})
    {
      newPtr := AllocAutosized(newSize);
      if newPtr != NULL {
        CopyOld(oldPtr, newPtr, old(InHand()), {AutoBlock(newPtr, newSize)});
      }
    }

    /** Copy the old bytes, if there are any. */
    method CopyOld(oldPtr: nat, newPtr: nat, ghost u: Use, ghost taken: set<Block>)
      requires AutosizedValid() && (oldPtr == NULL || oldPtr == NOWHERE || oldPtr in u.data)
      requires Changed(u, InHand(), taken, {}, {}) && newPtr !in u.data && newPtr in data &&
               data == u.data[newPtr := data[newPtr]]
      modifies this`data
      ensures AutosizedValid() && Changed(u, InHand(), taken, {}, {})
      ensures newPtr in data && |data[newPtr]| == |old(data)[newPtr]| && data == u.data[newPtr := data[newPtr]]
      ensures oldPtr in u.data ==> SamePrefix(u.data[oldPtr], data[newPtr])
    {
      AutosizedInUse(sizes, data, live, Cached());
      if oldPtr != NULL && oldPtr != NOWHERE {
        ghost var d := data;
        CopyContents(oldPtr, newPtr, u, taken);
        UpdateTwice(u.data, d, data, newPtr);
      }
    }

    /** realloc(): malloc() is Realloc(NULL, size) and free() is Realloc(ptr, 0). */
    method Realloc(oldPtr: nat, newSize: nat) returns (newPtr: nat)
      requires Valid() && AutosizedValid() && newSize < WORD
      requires oldPtr == NULL || oldPtr == NOWHERE || oldPtr in data
      modifies this
      ensures Valid() && AutosizedValid()
      ensures newSize == 0 ==> newPtr == NOWHERE && data == old(data) - {oldPtr}
      ensures newPtr == NULL ==>
                && newSize > 0 && data == old(data) && sizes == old(sizes)
                && (newSize > WORD - MIN - HEADER || Exhausted(newSize + HEADER, 1, 0))
      ensures newSize > 0 && newPtr != NULL ==>
                && newPtr !in old(data) && newPtr != NOWHERE && PointerAligned(newPtr, virtOffset)
                && newPtr in data && |data[newPtr]| == newSize && data == old(data)[newPtr := data[newPtr]] - {oldPtr}
                && (oldPtr in old(data) ==> SamePrefix(old(data)[oldPtr], data[newPtr]))
      ensures Reallocated(old(InHand()), InHand(), oldPtr, newPtr, newSize)
    {
      AutosizedInUse(sizes, data, live, Cached());
      NothingChanged(InHand());
      RoundUpCases(if newSize + HEADER < WORD then newSize + HEADER else 0);
      newPtr := NOWHERE;
      if newSize != 0 {
        newPtr := AllocCopy(oldPtr, newSize);
        if newPtr == NULL {
          return;
        }
      }
      ghost var m := InHand();
      ReleaseOld(oldPtr);
      ReallocSteps(old(InHand()), m, InHand(), oldPtr, newPtr, newSize);
    }

    method ReleaseOld(oldPtr: nat)
      requires Valid() && AutosizedValid()
      requires oldPtr == NULL || oldPtr == NOWHERE || oldPtr in data
      modifies this`free, this`freemem, this`usedmem, this`live, this`sizes, this`data
      ensures Valid() && AutosizedValid() && data == old(data) - {oldPtr}
      ensures if oldPtr in old(data) then Released(old(InHand()), InHand(), oldPtr) else InHand() == old(InHand())
    {
      if oldPtr != NULL && oldPtr != NOWHERE {
        FreeAutosized(oldPtr);
      } else {
        assert oldPtr in data ==> Autosized(sizes, data, live, Cached(), oldPtr);
      }
    }
  }
}
