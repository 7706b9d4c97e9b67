/**
core/iobuf.c on top of the allocator: a descriptor lives either right behind its
data or in a block of its own, and free_iob() tells the two apart by comparing
the end of the data with the descriptor's address.
*/
module IoBuffer {
  import opened Powers
  import opened FreeList
  import opened HeapModel
  import opened HeapTheorems
  import opened HeapUse
  import opened Malloc

  /** sizeof (struct io_buffer) and its alignment (64-bit build). */
  const IOB: nat := 48
  const IOB_ALIGN: nat := 8

  /** Room for an aligned descriptor, whatever the requested offset. */
  const PADDING: nat := IOB + IOB_ALIGN - 1

  /** The alignment actually used: at least PADDING, rounded up to a power of two. */
  function Rounded(align: nat): nat {
    Pow2(Fls((if align < PADDING then PADDING else align) - 1))
  }

  lemma RoundedFacts(align: nat)
    ensures align <= Rounded(align) && PADDING < Rounded(align) && IsPow2(Rounded(align))
    ensures Fls((if align < PADDING then PADDING else align) - 1) < 64 <==> Rounded(align) < WORD
    ensures exists m :: Rounded(align) == EightTimes(m)
  {
    var n := Fls((if align < PADDING then PADDING else align) - 1);
    FlsCovers((if align < PADDING then PADDING else align) - 1);
    WordIsPow2();
    if n >= 64 { Pow2Monotone(64, n); } else { Pow2Monotone(n, 63); Pow2Add(63, 1); }
    if n <= 5 { Pow2Monotone(n, 5); }
    Pow2Add(n - 3, 3);
    assert Pow2(3) == 8;
    assert Rounded(align) == EightTimes(Pow2(n - 3));
  }

  function EightTimes(m: int): int { 8 * m }

  /** Where an I/O buffer lies: its descriptor, and the start and end of its data. */
  datatype Extent = Extent(addr: nat, head: nat, end: nat) {
    predicate Inline() {
      end == addr
    }

    /** Bytes requested for the buffer, including an inline descriptor. */
    function Request(): int {
      end - head + if Inline() then IOB else 0
    }

    /** The heap block that holds the buffer. */
    function Buffer(): Block
      requires head <= end
    {
      Block(head, RoundUp(Request()))
    }

    /** Everything allocated for the I/O buffer. */
    function Blocks(): set<Block>
      requires head <= end
    {
      {Buffer()} + if Inline() then {} else {AutoBlock(addr, IOB)}
    }

    function Pointers(): set<nat> {
      if Inline() then {} else {addr}
    }

    /** Everything free_iob() relies on. */
    ghost predicate Held(u: Use) {
      && 0 < head <= end && 0 < Request() < WORD && RoundUp(Request()) != 0
      && Buffer() in InUse(u) && (forall q :: q in u.data ==> q != head + HEADER)
      && (!Inline() ==> addr >= HEADER && addr in u.data && |u.data[addr]| == IOB)
    }
  }

  /** An I/O buffer stays in order as long as its own blocks and its own descriptor are left alone. */
  lemma HeldKept(x: Extent, u: Use, v: Use, lost: set<Block>, gone: set<nat>)
    requires x.Held(u) && Undisturbed(u, v, lost, gone) && x.Buffer() !in lost && x.Pointers() !! gone
    ensures x.Held(v)
  {
    forall q | q in v.data ensures q != x.head + HEADER {
      if q !in u.data {
        assert AutoBlock(q, |v.data[q]|) in {AutoBlock(q, |v.data[q]|)} && x.Buffer() in InUse(u) - lost;
      }
    }
  }

  class Iob {
    const addr: nat
    var head: nat
    var data: nat
    var tail: nat
    var end: nat

    constructor (addr: nat, head: nat, end: nat)
      ensures this.addr == addr && this.head == this.data == this.tail == head && this.end == end
    {
      this.addr, this.head, this.data, this.tail, this.end := addr, head, head, head, end;
    }

    function Place(): Extent
      reads this
    {
      Extent(addr, head, end)
    }

    ghost predicate Holds(heap: Heap)
      reads this, heap
    {
      head <= data <= tail <= end && Place().Held(heap.InHand())
    }

    /**
    An empty buffer of the requested length and alignment; an inline descriptor is aligned and within the alignment
    unit.
    */
    ghost predicate Fits(heap: Heap, len: nat, unit: nat, offset: nat)
      requires unit > 0
      reads this, heap
    {
      && Holds(heap) && head == data == tail && AlignedAt(head, heap.virtOffset, offset, unit)
      && len <= end - head == (if Place().Inline() then RoundLength(len, offset) else len)
      && (Place().Inline() <==> len <= unit - PADDING)
      && (Place().Inline() ==> end + IOB - head <= unit && exists k :: addr + heap.virtOffset == EightTimes(k))
    }
  }

  /** Padding that rounds the end of the buffer up to the descriptor's alignment. */
  function RoundLength(len: nat, offset: nat): nat {
    len + (0 - len - offset) % IOB_ALIGN
  }

  lemma RoundLengthFacts(len: nat, offset: nat)
    ensures len <= RoundLength(len, offset) < len + IOB_ALIGN
    ensures exists k :: RoundLength(len, offset) + offset == EightTimes(k)
  {
    var k := (0 - len - offset) / IOB_ALIGN;
    assert RoundLength(len, offset) + offset == EightTimes(-k);
  }

  /** An inline descriptor is aligned, because the buffer's end was rounded up to its alignment. */
  lemma InlineAligned(head: nat, virtOffset: int, len: nat, offset: nat, unit: nat)
    requires unit > 0 && AlignedAt(head, virtOffset, offset, unit)
    requires exists m :: unit == EightTimes(m)
    ensures exists k :: head + RoundLength(len, offset) + virtOffset == EightTimes(k)
  {
    RoundLengthFacts(len, offset);
    var j :| RoundLength(len, offset) + offset == EightTimes(j);
    var m :| unit == EightTimes(m);
    var q := (head + virtOffset - offset) / unit;
    MulEight(q, m, unit);
    assert head + RoundLength(len, offset) + virtOffset == EightTimes(q * m + j);
  }

  lemma MulEight(q: int, m: int, unit: int)
    requires unit == EightTimes(m)
    ensures q * unit == EightTimes(q * m)
  {
  }

  /** The buffer b has been given back for lack of memory for its descriptor. */
  ghost predicate NoDescriptor(heap: Heap, b: Block)
    reads heap
  {
    heap.NothingCached() && exists m :: heap.Model() == AfterFree(m, b) && NoRoom(m, IOB + HEADER, 1, 0)
  }

  /** Bytes needed for the buffer, with the descriptor if it is inline. */
  function Needed(len: nat, unit: nat, offset: nat): nat {
    if len <= unit - PADDING then RoundLength(len, offset) + IOB else len
  }

  /** Why there may be no I/O buffer. */
  ghost predicate OutOfMemory(heap: Heap, len: nat, unit: nat, offset: nat)
    reads heap
  {
    || unit >= WORD || RoundUp(Needed(len, unit, offset)) == 0
    || heap.Exhausted(Needed(len, unit, offset), unit, offset)
    || (len > unit - PADDING && exists p :: NoDescriptor(heap, Block(p, RoundUp(len))))
  }

  /** The I/O buffer is new memory, and nothing else has changed. */
  ghost predicate Made(u: Use, v: Use, x: Extent) {
    x.Held(v) && Changed(u, v, x.Blocks(), {}, {}) && x.Pointers() !! u.data.Keys
  }

  /** alloc_iob_raw() */
  method AllocIobRaw(heap: Heap, len: nat, align: nat, offset: nat) returns (iobuf: Iob?)
    requires heap.Valid() && heap.AutosizedValid() && len < WORD && align < WORD && offset < WORD
    modifies heap
    ensures heap.Valid() && heap.AutosizedValid()
    ensures iobuf == null ==>
              && OutOfMemory(heap, len, Rounded(align), offset)
              && Changed(old(heap.InHand()), heap.InHand(), {}, {}, {})
    ensures iobuf != null ==>
              && fresh(iobuf) && iobuf.Fits(heap, len, Rounded(align), offset)
              && Made(old(heap.InHand()), heap.InHand(), iobuf.Place())
  {
    RoundedFacts(align);
    var align := if align < PADDING then PADDING else align;
    var alignLog2 := Fls(align - 1);
    if alignLog2 >= 64 {
      NothingChanged(heap.InHand());
      return null;
    }
    iobuf := AllocAligned(heap, len, Pow2(alignLog2), offset);
  }

  /** Inline up to the threshold, detached beyond it. */
  method AllocAligned(heap: Heap, len: nat, unit: nat, offset: nat) returns (iobuf: Iob?)
    requires heap.Valid() && heap.AutosizedValid() && len < WORD && offset < WORD
    requires IsPow2(unit) && PADDING < unit < WORD && exists m :: unit == EightTimes(m)
    modifies heap
    ensures heap.Valid() && heap.AutosizedValid()
    ensures iobuf == null ==>
              OutOfMemory(heap, len, unit, offset) && Changed(old(heap.InHand()), heap.InHand(), {}, {}, {})
    ensures iobuf != null ==>
              && fresh(iobuf) && iobuf.Fits(heap, len, unit, offset)
              && Made(old(heap.InHand()), heap.InHand(), iobuf.Place())
  {
    var threshold := unit - PADDING;
    if len <= threshold {
      RoundLengthFacts(len, offset);
      iobuf := AllocInline(heap, RoundLength(len, offset), unit, offset);
      if iobuf != null {
        InlineAligned(iobuf.head, heap.virtOffset, len, offset, unit);
      }
    } else {
      iobuf := AllocDetached(heap, len, unit, offset);
    }
  }

  lemma InlineMade(u: Use, v: Use, x: Extent)
    requires x.Inline() && 0 < x.head <= x.end && x.Request() < WORD && RoundUp(x.Request()) != 0
    requires Changed(u, v, {x.Buffer()}, {}, {}) && v.data == u.data && forall q :: q in u.data ==> q != x.head + HEADER
    ensures Made(u, v, x)
  {
  }

  /** Buffer plus descriptor as a single unit. */
  method AllocInline(heap: Heap, len: nat, unit: nat, offset: nat) returns (iobuf: Iob?)
    requires heap.Valid() && heap.AutosizedValid() && len + IOB < WORD
    requires IsPow2(unit) && PADDING < unit < WORD
    modifies heap
    ensures heap.Valid() && heap.AutosizedValid()
    ensures iobuf == null ==> RoundUp(len + IOB) == 0 || heap.Exhausted(len + IOB, unit, offset)
    ensures iobuf == null ==> Changed(old(heap.InHand()), heap.InHand(), {}, {}, {})
    ensures iobuf != null ==>
              && fresh(iobuf) && iobuf.Place().Inline() && iobuf.head == iobuf.data == iobuf.tail
              && iobuf.end == iobuf.head + len
              && AlignedAt(iobuf.head, heap.virtOffset, offset, unit)
              && Made(old(heap.InHand()), heap.InHand(), iobuf.Place())
  {
    ghost var u := heap.InHand();
    ghost var sizes := heap.sizes;
    var data := heap.MallocDma(len + IOB, unit, offset);
    if data == NULL {
      return null;
    }
    TakenApart(u, heap.InHand(), Block(data, RoundUp(len + IOB)));
    AutosizedApart(sizes, u.data, u.live, u.cached, Block(data, RoundUp(len + IOB)));
    iobuf := new Iob(data + len, data, data + len);
    InlineMade(u, heap.InHand(), iobuf.Place());
  }

  /** Buffer and descriptor in separate blocks; the descriptor can never sit at the buffer's end. */
  method AllocDetached(heap: Heap, len: nat, unit: nat, offset: nat) returns (iobuf: Iob?)
    requires heap.Valid() && heap.AutosizedValid() && 0 < len < WORD
    requires IsPow2(unit) && PADDING < unit < WORD
    modifies heap
    ensures heap.Valid() && heap.AutosizedValid()
    ensures iobuf == null ==>
              RoundUp(len) == 0 || heap.Exhausted(len, unit, offset) ||
                exists p :: NoDescriptor(heap, Block(p, RoundUp(len)))
    ensures iobuf == null ==> Changed(old(heap.InHand()), heap.InHand(), {}, {}, {})
    ensures iobuf != null ==>
              && fresh(iobuf) && !iobuf.Place().Inline() && iobuf.head == iobuf.data == iobuf.tail
              && iobuf.end == iobuf.head + len
              && AlignedAt(iobuf.head, heap.virtOffset, offset, unit)
              && Made(old(heap.InHand()), heap.InHand(), iobuf.Place())
  {
    ghost var u := heap.InHand();
    ghost var sizes := heap.sizes;
    var data := heap.MallocDma(len, unit, offset);
    if data == NULL {
      return null;
    }
    TakenApart(u, heap.InHand(), Block(data, RoundUp(len)));
    AutosizedApart(sizes, u.data, u.live, u.cached, Block(data, RoundUp(len)));
    iobuf := AllocDescriptor(heap, data, len, Block(data, RoundUp(len)), u);
  }

  lemma DetachedMade(u: Use, m: Use, v: Use, x: Extent, b: Block)
    requires Changed(u, m, {b}, {}, {}) && m.data == u.data && Changed(m, v, {AutoBlock(x.addr, IOB)}, {}, {})
    requires x.addr >= HEADER && x.addr !in m.data && x.addr in v.data && |v.data[x.addr]| == IOB
    requires v.data == m.data[x.addr := v.data[x.addr]]
    requires 0 < x.head < x.end && b == Block(x.head, RoundUp(x.end - x.head)) && x.end - x.head <= b.size < WORD
    requires forall q :: q in u.data ==> q != x.head + HEADER
    ensures !x.Inline() && Made(u, v, x)
  {
    var d := AutoBlock(x.addr, IOB);
    assert b in InUse(m) - {} && d in {d};
    NeverAtEnd(b, x.end - x.head, x.addr);
    ChangedThen(u, m, v, {b}, {}, {}, {d}, {}, {});
    assert {b} - {} + {d} == x.Blocks();
    assert {} + ({} - {b}) == {} && {} + (set q | q in {} && q in u.data) == {};
  }

  lemma DetachedUnmade(u: Use, m: Use, n: Use, v: Use, b: Block)
    requires Changed(u, m, {b}, {}, {}) && Changed(m, n, {}, {}, {}) && Changed(n, v, {}, {b}, {}) &&
             PointersGone(n.data, v.data, {b})
    requires b.size > 0
    ensures Changed(u, v, {}, {}, {})
  {
    ChangedThen(u, m, n, {b}, {}, {}, {}, {}, {});
    assert {b} - {} + {} == {b} && {} + ({} - {b}) == {} && {} + (set q | q in {} && q in u.data) == {};
    ChangedThen(u, n, v, {b}, {}, {}, {}, {b}, {});
    assert {b} - {b} + {} == {} && {} + ({b} - {b}) == {};
  }

  /** Free a buffer that there is no descriptor for. */
  method GiveBack(heap: Heap, data: nat, len: nat, ghost b: Block, ghost u: Use, ghost m: Use)
    requires heap.Valid() && heap.AutosizedValid() && 0 < len < WORD && data != NULL &&
             b == Block(data, RoundUp(len)) && len <= RoundUp(len)
    requires Changed(u, m, {b}, {}, {}) && Changed(m, heap.InHand(), {}, {}, {}) && heap.data == u.data == m.data
    requires forall q :: q in heap.data ==> q != data + HEADER
    requires heap.Exhausted(IOB + HEADER, 1, 0)
    modifies heap
    ensures heap.Valid() && heap.AutosizedValid() && NoDescriptor(heap, b) && Changed(u, heap.InHand(), {}, {}, {})
  {
    ghost var n, s := heap.InHand(), heap.Model();
    assert b in InUse(m) - {};
    heap.FreeDma(data, len);
    assert heap.Model() == AfterFree(s, b);
    DetachedUnmade(u, m, n, heap.InHand(), b);
  }

  /** Memory for the descriptor of a detached buffer; the buffer is given back if there is none. */
  method DescriptorMemory(heap: Heap, data: nat, len: nat, ghost b: Block, ghost u: Use) returns (addr: nat)
    requires heap.Valid() && heap.AutosizedValid() && 0 < len < WORD && data != NULL
    requires b == Block(data, RoundUp(len)) && len <= RoundUp(len) < WORD
    requires Changed(u, heap.InHand(), {b}, {}, {}) && heap.data == u.data &&
             forall q :: q in heap.data ==> q != data + HEADER
    modifies heap
    ensures heap.Valid() && heap.AutosizedValid()
    ensures addr == NULL ==> NoDescriptor(heap, b) && Changed(u, heap.InHand(), {}, {}, {})
    ensures addr != NULL ==> var x := Extent(addr, data, data + len); !x.Inline() && Made(u, heap.InHand(), x)
  {
    ghost var m := heap.InHand();
    addr := heap.AllocAutosized(IOB);
    if addr == NULL {
      GiveBack(heap, data, len, b, u, m);
    } else {
      DetachedMade(u, m, heap.InHand(), Extent(addr, data, data + len), b);
    }
  }

  /** The descriptor of a detached buffer. */
  method AllocDescriptor(heap: Heap, data: nat, len: nat, ghost b: Block, ghost u: Use) returns (iobuf: Iob?)
    requires heap.Valid() && heap.AutosizedValid() && 0 < len < WORD && data != NULL
    requires b == Block(data, RoundUp(len)) && len <= RoundUp(len) < WORD
    requires Changed(u, heap.InHand(), {b}, {}, {}) && heap.data == u.data &&
             forall q :: q in heap.data ==> q != data + HEADER
    modifies heap
    ensures heap.Valid() && heap.AutosizedValid()
    ensures iobuf == null ==> NoDescriptor(heap, b) && Changed(u, heap.InHand(), {}, {}, {})
    ensures iobuf != null ==>
              && fresh(iobuf) && !iobuf.Place().Inline() && iobuf.head == iobuf.data == iobuf.tail == data
              && iobuf.end == data + len
              && Made(u, heap.InHand(), iobuf.Place())
  {
    var addr := DescriptorMemory(heap, data, len, b, u);
    if addr == NULL { return null; }
    iobuf := new Iob(addr, data, data + len);
  }

  /** A descriptor behind its own size word is strictly inside a block that misses the buffer's. */
  lemma NeverAtEnd(b: Block, len: nat, addr: nat)
    requires len <= b.size && addr >= HEADER && b.size > 0
    requires Disjoint(b, AutoBlock(addr, IOB))
    ensures addr != b.addr + len && addr != b.addr + HEADER
  {
  }

  /** The I/O buffer's blocks have been given back, and nothing else has changed. */
  ghost predicate Unmade(u: Use, v: Use, x: Extent)
    requires x.head <= x.end
  {
    && v.live == u.live - x.Blocks() && v.cached == u.cached && v.data == u.data - x.Pointers()
    && Changed(u, v, {}, x.Blocks(), x.Pointers()) && PointersGone(u.data, v.data, x.Blocks())
  }

  lemma FreedUnmade(u: Use, v: Use, x: Extent)
    requires x.Held(u) && (forall q :: q in u.data ==> q >= HEADER)
    requires v.live == u.live - x.Blocks() && v.cached == u.cached && v.data == u.data - x.Pointers()
    ensures Unmade(u, v, x)
  {
  }

  /** A buffer with its descriptor. */
  method FreeInline(heap: Heap, x: Extent)
    requires heap.Valid() && heap.AutosizedValid() && x.Held(heap.InHand()) && x.Inline()
    modifies heap
    ensures heap.Valid() && heap.AutosizedValid() && Unmade(old(heap.InHand()), heap.InHand(), x)
  {
    ghost var u := heap.InHand();
    AutosizedInUse(heap.sizes, heap.data, heap.live, heap.Cached());
    heap.FreeDma(x.head, x.end - x.head + IOB);
    assert heap.data == u.data - {};
    FreedUnmade(u, heap.InHand(), x);
  }

  /** Free the buffer, then the descriptor. */
  method FreeDetached(heap: Heap, x: Extent)
    requires heap.Valid() && heap.AutosizedValid() && x.Held(heap.InHand()) && !x.Inline()
    modifies heap
    ensures heap.Valid() && heap.AutosizedValid() && Unmade(old(heap.InHand()), heap.InHand(), x)
  {
    ghost var u := heap.InHand();
    AutosizedInUse(heap.sizes, heap.data, heap.live, heap.Cached());
    heap.FreeDma(x.head, x.end - x.head);
    heap.FreeAutosized(x.addr);
    FreedUnmade(u, heap.InHand(), x);
  }

  /** free_iob(): gives back exactly the blocks the I/O buffer stands for. */
  method FreeIob(heap: Heap, iobuf: Iob?)
    requires heap.Valid() && heap.AutosizedValid()
    requires iobuf != null ==> iobuf.Holds(heap)
    modifies heap
    ensures heap.Valid() && heap.AutosizedValid()
    ensures if iobuf == null then heap.InHand() == old(heap.InHand())
            else iobuf.head <= iobuf.end && Unmade(old(heap.InHand()), heap.InHand(), iobuf.Place())
  {
    if iobuf == null {
      return;
    }
    if iobuf.end == iobuf.addr {
      FreeInline(heap, iobuf.Place());
    } else {
      FreeDetached(heap, iobuf.Place());
    }
  }
}
