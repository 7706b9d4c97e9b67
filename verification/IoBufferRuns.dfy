/** Any number of I/O buffers and other memory, allocated, resized and freed in any order. */
module IoBufferRuns {
  import opened FreeList
  import opened HeapModel
  import opened HeapUse
  import opened HeapTheorems
  import opened Malloc
  import opened IoBuffer

  /** Allocate an I/O buffer, free one, or call realloc() on a pointer of our own, or on NULL if it is not. */
  datatype Command = New(len: nat, align: nat, offset: nat) | Drop(which: nat) | Resize(ptr: nat, size: nat)

  predicate Sane(c: Command) {
    match c
    case New(len, align, offset) => len < WORD && align < WORD && offset < WORD
    case Drop(_) => true
    case Resize(_, size) => size < WORD
  }

  // ---------------------------------------------------------------------
  // What each command has to do
  // ---------------------------------------------------------------------

  /** What became of a command. */
  datatype Outcome =
    | Allocated(place: Extent)
    | NoMemory
    | Freed(place: Extent)
    | Skipped
    | Moved(oldPtr: nat, newPtr: nat)

  /** The I/O buffers and the pointers that have not been freed. */
  datatype Holding = Holding(xs: seq<Extent>, ptrs: set<nat>)

  /** The heap, and whether there is nothing left to discard. */
  datatype Picture = Picture(model: State, uncached: bool)

  ghost predicate Scarce(pic: Picture, size: nat, align: nat, offset: nat) {
    pic.uncached && NoRoom(pic.model, size, align, offset)
  }

  /** OutOfMemory() for a picture of the heap. */
  ghost predicate Starved(pic: Picture, len: nat, unit: nat, offset: nat) {
    var needed := Needed(len, unit, offset);
    || unit >= WORD || RoundUp(needed) == 0 || Scarce(pic, needed, unit, offset)
    || (len > unit - PADDING && pic.uncached && exists p :: BufferReturned(pic.model, Block(p, RoundUp(len))))
  }

  ghost predicate BufferReturned(s: State, b: Block) {
    exists m :: s == AfterFree(m, b) && NoRoom(m, IOB + HEADER, 1, 0)
  }

  /** The length and alignment asked for, with the descriptor inline exactly up to the threshold. */
  ghost predicate Suits(x: Extent, len: nat, unit: nat, offset: nat, virtOffset: int)
    requires unit > 0
  {
    && x.head <= x.end && AlignedAt(x.head, virtOffset, offset, unit)
    && len <= x.end - x.head == (if x.Inline() then RoundLength(len, offset) else len)
    && (x.Inline() <==> len <= unit - PADDING)
  }

  ghost predicate DidNew(c: Command, o: Outcome, h: Holding, h': Holding, pic: Picture)
    requires c.New?
  {
    if o.Allocated? then
      && Rounded(c.align) > 0 && Suits(o.place, c.len, Rounded(c.align), c.offset, pic.model.virtOffset)
      && h' == h.(xs := h.xs + [o.place])
    else o.NoMemory? && h' == h && Starved(pic, c.len, Rounded(c.align), c.offset)
  }

  predicate DidDrop(which: nat, o: Outcome, h: Holding, h': Holding) {
    if which < |h.xs| then o == Freed(h.xs[which]) && h' == h.(xs := Without(h.xs, which)) else o.Skipped? && h' == h
  }

  ghost predicate DidResize(ptr: nat, size: nat, o: Outcome, h: Holding, h': Holding, pic: Picture) {
    && o.Moved? && o.oldPtr == (if ptr in h.ptrs then ptr else NULL)
    && h' == h.(ptrs := Resized(h.ptrs, o.oldPtr, o.newPtr, size))
    && (o.newPtr == NULL ==> size > 0 && (size > WORD - MIN - HEADER || Scarce(pic, size + HEADER, 1, 0)))
  }

  /** Memory is allocated unless there is none, and freed whenever it is there to be freed. */
  ghost predicate DidCommand(c: Command, o: Outcome, h: Holding, h': Holding, pic: Picture) {
    match c
    case New(_, _, _) => DidNew(c, o, h, h', pic)
    case Drop(which) => DidDrop(which, o, h, h')
    case Resize(ptr, size) => DidResize(ptr, size, o, h, h', pic)
  }

  /** All commands so far, from holding nothing. */
  ghost predicate Story(commands: seq<Command>, trace: seq<Outcome>, hs: seq<Holding>, pics: seq<Picture>) {
    && |hs| == |trace| + 1 && |trace| == |pics| <= |commands| && hs[0] == Holding([], {})
    && forall k :: 0 <= k < |trace| ==> DidCommand(commands[k], trace[k], hs[k], hs[k + 1], pics[k])
  }

  lemma StoryMore(commands: seq<Command>, trace: seq<Outcome>, hs: seq<Holding>, pics: seq<Picture>, o: Outcome,
                  h: Holding, pic: Picture)
    requires Story(commands, trace, hs, pics) && |trace| < |commands|
    requires DidCommand(commands[|trace|], o, hs[|trace|], h, pic)
    ensures Story(commands, trace + [o], hs + [h], pics + [pic])
  {
    var t, g, p := trace + [o], hs + [h], pics + [pic];
    forall k | 0 <= k < |t| ensures DidCommand(commands[k], t[k], g[k], g[k + 1], p[k]) {
      if k < |trace| { assert t[k] == trace[k] && g[k] == hs[k] && g[k + 1] == hs[k + 1] && p[k] == pics[k]; }
    }
  }

  predicate Ordered(xs: seq<Extent>) {
    forall i :: 0 <= i < |xs| ==> xs[i].head <= xs[i].end
  }

  function BufferBlocks(xs: seq<Extent>): set<Block>
    requires Ordered(xs)
  {
    set i, b | 0 <= i < |xs| && b in xs[i].Blocks() :: b
  }

  function PointerBlocks(ptrs: set<nat>, data: map<nat, seq<bv8>>): set<Block> {
    set p | p in ptrs && p in data :: AutoBlock(p, |data[p]|)
  }

  /** Every block that belongs to an I/O buffer or to one of the pointers. */
  function Owned(xs: seq<Extent>, ptrs: set<nat>, data: map<nat, seq<bv8>>): set<Block>
    requires Ordered(xs)
  {
    BufferBlocks(xs) + PointerBlocks(ptrs, data)
  }

  /** Different I/O buffers share neither memory nor descriptor. */
  predicate Separate(x: Extent, y: Extent)
    requires x.head <= x.end && y.head <= y.end
  {
    x.Buffer() != y.Buffer() && x.Pointers() !! y.Pointers()
  }

  ghost predicate AllHeld(xs: seq<Extent>, u: Use) {
    forall i :: 0 <= i < |xs| ==> xs[i].Held(u)
  }

  ghost predicate AllSeparate(xs: seq<Extent>)
    requires Ordered(xs)
  {
    forall i, j :: 0 <= i < |xs| && 0 <= j < |xs| && i != j ==> Separate(xs[i], xs[j])
  }

  /** The pointers are ours alone. */
  ghost predicate OwnPointers(start: Use, u: Use, xs: seq<Extent>, ptrs: set<nat>) {
    && (forall p :: p in ptrs ==> p in u.data && p !in start.data)
    && forall i :: 0 <= i < |xs| ==> xs[i].Pointers() !! ptrs && xs[i].Pointers() !! start.data.Keys
  }

  /**
  Since `start`, exactly the blocks of these I/O buffers and pointers have been taken; each
  I/O buffer can be freed; and everything that was in use is still there, with its contents.
  */
  ghost predicate Owns(start: Use, u: Use, xs: seq<Extent>, ptrs: set<nat>) {
    && Ordered(xs) && AllHeld(xs, u) && AllSeparate(xs) && OwnPointers(start, u, xs, ptrs)
    && Changed(start, u, Owned(xs, ptrs, u.data), {}, {})
  }

  ghost predicate Sized(u: Use) {
    (forall b :: b in u.live ==> b.size > 0) && forall q :: q in u.data ==> q >= HEADER
  }

  lemma NothingOwned(u: Use)
    ensures Owns(u, u, [], {})
  {
    NothingChanged(u);
    assert Owned([], {}, u.data) == {};
  }

  // ---------------------------------------------------------------------
  // One more I/O buffer
  // ---------------------------------------------------------------------

  lemma MadeSeparate(start: Use, u: Use, v: Use, xs: seq<Extent>, ptrs: set<nat>, x: Extent)
    requires Owns(start, u, xs, ptrs) && Made(u, v, x)
    ensures AllSeparate(xs + [x]) && OwnPointers(start, v, xs + [x], ptrs)
  {
    forall i | 0 <= i < |xs| ensures Separate(xs[i], x) && Separate(x, xs[i]) {
      assert xs[i].Held(u);
      assert x.Buffer() in x.Blocks() && xs[i].Buffer() in InUse(u) - {};
    }
  }

  lemma MadeOwned(u: Use, v: Use, xs: seq<Extent>, ptrs: set<nat>, x: Extent)
    requires Ordered(xs) && Made(u, v, x) && ptrs <= u.data.Keys
    ensures Owned(xs + [x], ptrs, v.data) == Owned(xs, ptrs, u.data) + x.Blocks()
  {
    var ys := xs + [x];
    assert BufferBlocks(ys) == BufferBlocks(xs) + x.Blocks() by {
      forall b | b in BufferBlocks(xs) ensures b in BufferBlocks(ys) {
        var i :| 0 <= i < |xs| && b in xs[i].Blocks();
        assert b in ys[i].Blocks();
      }
      forall b | b in x.Blocks() ensures b in BufferBlocks(ys) { assert b in ys[|xs|].Blocks(); }
    }
    assert PointerBlocks(ptrs, v.data) == PointerBlocks(ptrs, u.data);
  }

  lemma NewStep(start: Use, u: Use, v: Use, xs: seq<Extent>, ptrs: set<nat>, x: Extent)
    requires Owns(start, u, xs, ptrs) && Made(u, v, x) && Sized(u) && Sized(v)
    ensures Owns(start, v, xs + [x], ptrs)
  {
    ChangedUndisturbed(u, v, x.Blocks(), {}, {});
    forall i | 0 <= i < |xs| ensures xs[i].Held(v) { HeldKept(xs[i], u, v, {}, {}); }
    MadeSeparate(start, u, v, xs, ptrs, x);
    MadeOwned(u, v, xs, ptrs, x);
    Composed(start, u, v, Owned(xs, ptrs, u.data), x.Blocks(), {}, {});
  }

  /** ChangedThen() for what is owned: only own blocks and own pointers are given up. */
  lemma Composed(start: Use, u: Use, v: Use, owned: set<Block>, taken: set<Block>, given: set<Block>, gone: set<nat>)
    requires Changed(start, u, owned, {}, {}) && Changed(u, v, taken, given, gone) && given <= owned
    requires PointersGone(u.data, v.data, given) && (forall q :: q in gone ==> q !in v.data && q !in start.data)
    requires Sized(u) && Sized(v)
    ensures Changed(start, v, owned - given + taken, {}, {})
  {
    ChangedThen(start, u, v, owned, {}, {}, taken, given, gone);
    assert {} + (given - owned) == {} && {} + (set q | q in gone && q in start.data) == {};
  }

  // ---------------------------------------------------------------------
  // One I/O buffer less
  // ---------------------------------------------------------------------

  function Without<T>(xs: seq<T>, i: nat): seq<T>
    requires i < |xs|
  {
    xs[..i] + xs[i + 1..]
  }

  /** Separate I/O buffers have no block in common. */
  lemma NoCommonBlock(u: Use, x: Extent, y: Extent)
    requires x.Held(u) && y.Held(u) && Separate(x, y)
    ensures x.Blocks() !! y.Blocks()
  {
  }

  lemma NoPointerBlock(u: Use, x: Extent, ptrs: set<nat>)
    requires x.Held(u) && Sized(u) && x.Pointers() !! ptrs
    ensures x.Blocks() !! PointerBlocks(ptrs, u.data)
  {
  }

  lemma BlocksWithout(u: Use, xs: seq<Extent>, i: nat)
    requires Ordered(xs) && AllHeld(xs, u) && AllSeparate(xs) && i < |xs|
    ensures Ordered(Without(xs, i)) && BufferBlocks(Without(xs, i)) == BufferBlocks(xs) - xs[i].Blocks()
  {
    var x, ys := xs[i], Without(xs, i);
    forall j | 0 <= j < |ys| ensures ys[j] == xs[if j < i then j else j + 1] { }
    forall b | b in BufferBlocks(xs) - x.Blocks() ensures b in BufferBlocks(ys) {
      var j :| 0 <= j < |xs| && b in xs[j].Blocks();
      assert ys[if j < i then j else j - 1] == xs[j];
    }
    forall b | b in BufferBlocks(ys) ensures b in BufferBlocks(xs) - x.Blocks() {
      var j :| 0 <= j < |ys| && b in ys[j].Blocks();
      var k := if j < i then j else j + 1;
      assert Separate(xs[k], x);
      NoCommonBlock(u, xs[k], x);
    }
  }

  lemma UnmadeOwned(u: Use, v: Use, xs: seq<Extent>, ptrs: set<nat>, i: nat)
    requires Ordered(xs) && AllHeld(xs, u) && AllSeparate(xs) && i < |xs| && Unmade(u, v, xs[i]) && Sized(u)
    requires xs[i].Pointers() !! ptrs
    ensures Ordered(Without(xs, i)) && Owned(Without(xs, i), ptrs, v.data) == Owned(xs, ptrs, u.data) - xs[i].Blocks()
  {
    BlocksWithout(u, xs, i);
    NoPointerBlock(u, xs[i], ptrs);
    assert PointerBlocks(ptrs, v.data) == PointerBlocks(ptrs, u.data);
  }

  lemma DropHeld(u: Use, v: Use, xs: seq<Extent>, i: nat)
    requires Ordered(xs) && AllHeld(xs, u) && AllSeparate(xs) && i < |xs| && Unmade(u, v, xs[i])
    ensures AllHeld(Without(xs, i), v)
  {
    ChangedUndisturbed(u, v, {}, xs[i].Blocks(), xs[i].Pointers());
    forall j | 0 <= j < |Without(xs, i)| ensures Without(xs, i)[j].Held(v) {
      var k := if j < i then j else j + 1;
      assert Without(xs, i)[j] == xs[k] && Separate(xs[k], xs[i]);
      NoCommonBlock(u, xs[k], xs[i]);
      HeldKept(xs[k], u, v, xs[i].Blocks(), xs[i].Pointers());
    }
  }

  lemma DropSeparate(start: Use, u: Use, v: Use, xs: seq<Extent>, ptrs: set<nat>, i: nat)
    requires Owns(start, u, xs, ptrs) && i < |xs| && Unmade(u, v, xs[i])
    ensures Ordered(Without(xs, i)) && AllSeparate(Without(xs, i)) && OwnPointers(start, v, Without(xs, i), ptrs)
  {
    var ys := Without(xs, i);
    forall j | 0 <= j < |ys| ensures ys[j] == xs[if j < i then j else j + 1] { }
    forall j, k | 0 <= j < |ys| && 0 <= k < |ys| && j != k ensures Separate(ys[j], ys[k]) {
      assert Separate(xs[if j < i then j else j + 1], xs[if k < i then k else k + 1]);
    }
  }

  lemma DropStep(start: Use, u: Use, v: Use, xs: seq<Extent>, ptrs: set<nat>, i: nat)
    requires Owns(start, u, xs, ptrs) && i < |xs| && Unmade(u, v, xs[i]) && Sized(u) && Sized(v)
    ensures Owns(start, v, Without(xs, i), ptrs)
  {
    DropHeld(u, v, xs, i);
    DropSeparate(start, u, v, xs, ptrs, i);
    UnmadeOwned(u, v, xs, ptrs, i);
    assert xs[i].Blocks() <= BufferBlocks(xs);
    Composed(start, u, v, Owned(xs, ptrs, u.data), {}, xs[i].Blocks(), xs[i].Pointers());
  }

  // ---------------------------------------------------------------------
  // realloc()
  // ---------------------------------------------------------------------

  /** The pointers after realloc(). */
  function Resized(ptrs: set<nat>, oldPtr: nat, newPtr: nat, size: nat): set<nat> {
    if newPtr == NULL then ptrs else ptrs - {oldPtr} + if size == 0 then {} else {newPtr}
  }

  /** What Realloc() promises about its pointers. */
  ghost predicate Resizes(u: Use, v: Use, ptrs: set<nat>, oldPtr: nat, newPtr: nat, size: nat) {
    && Reallocated(u, v, oldPtr, newPtr, size) && (oldPtr in ptrs || oldPtr !in u.data)
    && (newPtr == NULL ==> v.data == u.data)
    && (newPtr != NULL && size == 0 ==> v.data == u.data - {oldPtr})
    && (newPtr != NULL && size > 0 ==>
          newPtr !in u.data && newPtr in v.data && |v.data[newPtr]| == size &&
            v.data == u.data[newPtr := v.data[newPtr]] - {oldPtr})
  }

  lemma ResizeOwned(u: Use, v: Use, xs: seq<Extent>, ptrs: set<nat>, oldPtr: nat, newPtr: nat, size: nat)
    requires Ordered(xs) && AllHeld(xs, u) && Sized(u) && ptrs <= u.data.Keys &&
             Resizes(u, v, ptrs, oldPtr, newPtr, size)
    requires forall i :: 0 <= i < |xs| ==> xs[i].Pointers() !! ptrs
    ensures Owned(xs, Resized(ptrs, oldPtr, newPtr, size), v.data) ==
            Owned(xs, ptrs, u.data) - ReallocGives(u, oldPtr, newPtr) + ReallocTakes(newPtr, size)
  {
    var given, taken := ReallocGives(u, oldPtr, newPtr), ReallocTakes(newPtr, size);
    assert given <= PointerBlocks(ptrs, u.data);
    assert BufferBlocks(xs) !! given by {
      forall b | b in BufferBlocks(xs) ensures b !in given {
        var i :| 0 <= i < |xs| && b in xs[i].Blocks();
        NoPointerBlock(u, xs[i], ptrs);
      }
    }
    ResizePointers(u, v, ptrs, oldPtr, newPtr, size);
  }

  lemma ResizePointers(u: Use, v: Use, ptrs: set<nat>, oldPtr: nat, newPtr: nat, size: nat)
    requires Sized(u) && ptrs <= u.data.Keys && Resizes(u, v, ptrs, oldPtr, newPtr, size)
    ensures PointerBlocks(Resized(ptrs, oldPtr, newPtr, size), v.data) ==
            PointerBlocks(ptrs, u.data) - ReallocGives(u, oldPtr, newPtr) + ReallocTakes(newPtr, size)
  {
    var after, given := Resized(ptrs, oldPtr, newPtr, size), ReallocGives(u, oldPtr, newPtr);
    forall b | b in PointerBlocks(ptrs, u.data) - given ensures b in PointerBlocks(after, v.data) {
      var p :| p in ptrs && p in u.data && b == AutoBlock(p, |u.data[p]|);
      assert p in after && p in v.data && v.data[p] == u.data[p];
    }
  }

  lemma ResizeStep(start: Use, u: Use, v: Use, xs: seq<Extent>, ptrs: set<nat>, oldPtr: nat, newPtr: nat, size: nat)
    requires Owns(start, u, xs, ptrs) && Resizes(u, v, ptrs, oldPtr, newPtr, size) && Sized(u) && Sized(v)
    ensures Owns(start, v, xs, Resized(ptrs, oldPtr, newPtr, size))
  {
    var given, gone: set<nat> := ReallocGives(u, oldPtr, newPtr), if newPtr == NULL then {} else {oldPtr};
    ResizeHeld(start, u, v, xs, ptrs, oldPtr, newPtr, size);
    ResizeOwned(u, v, xs, ptrs, oldPtr, newPtr, size);
    ResizeComposed(start, u, v, xs, ptrs, oldPtr, newPtr, size);
  }

  lemma ResizeComposed(start: Use, u: Use, v: Use, xs: seq<Extent>, ptrs: set<nat>, oldPtr: nat, newPtr: nat, size: nat)
    requires Owns(start, u, xs, ptrs) && Resizes(u, v, ptrs, oldPtr, newPtr, size) && Sized(u) && Sized(v)
    ensures Changed(start, v, Owned(xs, ptrs, u.data) - ReallocGives(u, oldPtr, newPtr) + ReallocTakes(newPtr, size),
            {}, {})
  {
    var given := ReallocGives(u, oldPtr, newPtr);
    if newPtr != NULL && oldPtr !in u.data {
      ChangedThen(start, u, v, Owned(xs, ptrs, u.data), {}, {}, ReallocTakes(newPtr, size), {}, {oldPtr});
      assert {} + ({} - Owned(xs, ptrs, u.data)) == {} && oldPtr !in start.data;
      assert {} + (set q | q in {oldPtr} && q in start.data) == {};
    } else {
      assert given <= PointerBlocks(ptrs, u.data);
      var gone := if newPtr == NULL then {} else {oldPtr};
      Composed(start, u, v, Owned(xs, ptrs, u.data), ReallocTakes(newPtr, size), given, gone);
    }
  }

  lemma ResizeHeld(start: Use, u: Use, v: Use, xs: seq<Extent>, ptrs: set<nat>, oldPtr: nat, newPtr: nat, size: nat)
    requires Owns(start, u, xs, ptrs) && Resizes(u, v, ptrs, oldPtr, newPtr, size) && Sized(u)
    ensures AllHeld(xs, v) && OwnPointers(start, v, xs, Resized(ptrs, oldPtr, newPtr, size))
  {
    var given, gone: set<nat> := ReallocGives(u, oldPtr, newPtr), if newPtr == NULL then {} else {oldPtr};
    ChangedUndisturbed(u, v, ReallocTakes(newPtr, size), given, gone);
    forall i | 0 <= i < |xs| ensures xs[i].Held(v) {
      NoPointerBlock(u, xs[i], ptrs);
      assert given <= PointerBlocks(ptrs, u.data);
      assert xs[i].Held(u) && xs[i].Buffer() in xs[i].Blocks();
      HeldKept(xs[i], u, v, given, gone);
    }
  }

  // ---------------------------------------------------------------------
  // Every run
  // ---------------------------------------------------------------------

  lemma HeapSized(heap: Heap)
    requires heap.Valid() && heap.AutosizedValid()
    ensures Sized(heap.InHand())
  {
    AutosizedInUse(heap.sizes, heap.data, heap.live, heap.Cached());
    forall q | q in heap.data ensures q >= HEADER {
      assert Autosized(heap.sizes, heap.data, heap.live, heap.Cached(), q);
    }
  }

  /** The I/O buffers and the places they lie in. */
  ghost predicate Placed(bufs: seq<Iob>, xs: seq<Extent>)
    reads bufs
  {
    |bufs| == |xs| && forall i :: 0 <= i < |bufs| ==>
      bufs[i].Place() == xs[i] && bufs[i].head <= bufs[i].data <= bufs[i].tail <= bufs[i].end
  }

  lemma PlacedMore(bufs: seq<Iob>, xs: seq<Extent>, iobuf: Iob)
    requires Placed(bufs, xs) && iobuf.head <= iobuf.data <= iobuf.tail <= iobuf.end
    ensures Placed(bufs + [iobuf], xs + [iobuf.Place()])
  {
  }

  ghost function Pictured(heap: Heap): Picture
    reads heap
  {
    Picture(heap.Model(), heap.NothingCached())
  }

  lemma OutOfMemoryStarved(heap: Heap, len: nat, unit: nat, offset: nat)
    requires OutOfMemory(heap, len, unit, offset)
    ensures Starved(Pictured(heap), len, unit, offset)
  {
    if p :| NoDescriptor(heap, Block(p, RoundUp(len))) {
      assert BufferReturned(heap.Model(), Block(p, RoundUp(len)));
    }
  }

  method DoNew(heap: Heap, c: Command, bufs: seq<Iob>, ghost start: Use, ghost h: Holding)
    returns (o: Outcome, bufs': seq<Iob>, ghost h': Holding)
    requires heap.Valid() && heap.AutosizedValid() && c.New? && Sane(c)
    requires Placed(bufs, h.xs) && Owns(start, heap.InHand(), h.xs, h.ptrs)
    modifies heap
    ensures heap.Valid() && heap.AutosizedValid() && Placed(bufs', h'.xs) && Owns(start, heap.InHand(), h'.xs, h'.ptrs)
    ensures DidNew(c, o, h, h', Pictured(heap))
  {
    ghost var u := heap.InHand();
    HeapSized(heap);
    RoundedFacts(c.align);
    var iobuf := AllocIobRaw(heap, c.len, c.align, c.offset);
    HeapSized(heap);
    if iobuf == null {
      KeepStep(start, u, heap.InHand(), h.xs, h.ptrs);
      OutOfMemoryStarved(heap, c.len, Rounded(c.align), c.offset);
      return NoMemory, bufs, h;
    }
    NewStep(start, u, heap.InHand(), h.xs, h.ptrs, iobuf.Place());
    PlacedMore(bufs, h.xs, iobuf);
    o, bufs', h' := Allocated(iobuf.Place()), bufs + [iobuf], h.(xs := h.xs + [iobuf.Place()]);
  }

  lemma KeepStep(start: Use, u: Use, v: Use, xs: seq<Extent>, ptrs: set<nat>)
    requires Owns(start, u, xs, ptrs) && Changed(u, v, {}, {}, {}) && Sized(u) && Sized(v)
    ensures Owns(start, v, xs, ptrs)
  {
    ChangedUndisturbed(u, v, {}, {}, {});
    forall i | 0 <= i < |xs| ensures xs[i].Held(v) { HeldKept(xs[i], u, v, {}, {}); }
    Composed(start, u, v, Owned(xs, ptrs, u.data), {}, {}, {});
    assert PointerBlocks(ptrs, v.data) == PointerBlocks(ptrs, u.data);
    assert Owned(xs, ptrs, u.data) - {} + {} == Owned(xs, ptrs, u.data);
  }

  lemma PlacedWithout(bufs: seq<Iob>, xs: seq<Extent>, i: nat)
    requires Placed(bufs, xs) && i < |bufs|
    ensures Placed(Without(bufs, i), Without(xs, i))
  {
    forall j | 0 <= j < |Without(bufs, i)|
      ensures Without(bufs, i)[j] == bufs[if j < i then j else j + 1] &&
              Without(xs, i)[j] == xs[if j < i then j else j + 1]
    {
    }
  }

  method DoDrop(heap: Heap, which: nat, bufs: seq<Iob>, ghost start: Use, ghost h: Holding)
    returns (o: Outcome, bufs': seq<Iob>, ghost h': Holding)
    requires heap.Valid() && heap.AutosizedValid() && which < |bufs|
    requires Placed(bufs, h.xs) && Owns(start, heap.InHand(), h.xs, h.ptrs)
    modifies heap
    ensures heap.Valid() && heap.AutosizedValid() && Placed(bufs', h'.xs) && Owns(start, heap.InHand(), h'.xs, h'.ptrs)
    ensures DidDrop(which, o, h, h')
  {
    ghost var u := heap.InHand();
    HeapSized(heap);
    assert h.xs[which].Held(u);
    FreeIob(heap, bufs[which]);
    HeapSized(heap);
    DropStep(start, u, heap.InHand(), h.xs, h.ptrs, which);
    PlacedWithout(bufs, h.xs, which);
    o, bufs', h' := Freed(bufs[which].Place()), Without(bufs, which), h.(xs := Without(h.xs, which));
  }

  method DoResize(heap: Heap, ptr: nat, size: nat, ghost start: Use, ghost h: Holding, ptrs: set<nat>)
    returns (o: Outcome, ptrs': set<nat>, ghost h': Holding)
    requires heap.Valid() && heap.AutosizedValid() && size < WORD && h.ptrs == ptrs &&
             Owns(start, heap.InHand(), h.xs, ptrs)
    modifies heap
    ensures heap.Valid() && heap.AutosizedValid() && h'.ptrs == ptrs' && h'.xs == h.xs &&
            Owns(start, heap.InHand(), h.xs, ptrs')
    ensures DidResize(ptr, size, o, h, h', Pictured(heap))
  {
    ghost var u := heap.InHand();
    HeapSized(heap);
    var oldPtr := if ptr in ptrs then ptr else NULL;
    var newPtr := heap.Realloc(oldPtr, size);
    HeapSized(heap);
    ResizeStep(start, u, heap.InHand(), h.xs, ptrs, oldPtr, newPtr, size);
    o, ptrs' := Moved(oldPtr, newPtr), Resized(ptrs, oldPtr, newPtr, size);
    h' := h.(ptrs := ptrs');
  }

  method DoCommand(heap: Heap, c: Command, bufs: seq<Iob>, ptrs: set<nat>, ghost start: Use, ghost h: Holding)
    returns (o: Outcome, bufs': seq<Iob>, ptrs': set<nat>, ghost h': Holding)
    requires heap.Valid() && heap.AutosizedValid() && Sane(c) && h.ptrs == ptrs
    requires Placed(bufs, h.xs) && Owns(start, heap.InHand(), h.xs, ptrs)
    modifies heap
    ensures heap.Valid() && heap.AutosizedValid() && h'.ptrs == ptrs'
    ensures Placed(bufs', h'.xs) && Owns(start, heap.InHand(), h'.xs, ptrs')
    ensures DidCommand(c, o, h, h', Pictured(heap))
  {
    o, bufs', ptrs', h' := Skipped, bufs, ptrs, h;
    match c
    case New(_, _, _) => o, bufs', h' := DoNew(heap, c, bufs, start, h);
    case Drop(which) => if which < |bufs| { o, bufs', h' := DoDrop(heap, which, bufs, start, h); }
    case Resize(ptr, size) => o, ptrs', h' := DoResize(heap, ptr, size, start, h, ptrs);
  }

  /**
  Whatever is allocated, resized and freed, and in whatever order: each command does what it says, unless there is no
  memory for it; every I/O buffer that has not been freed can be; those that have been gave back exactly what they
  had taken; and everything that was in use at the start is untouched.
  */
  method Session(heap: Heap, commands: seq<Command>)
    returns (trace: seq<Outcome>, bufs: seq<Iob>, ptrs: set<nat>, ghost hs: seq<Holding>, ghost pics: seq<Picture>)
    requires heap.Valid() && heap.AutosizedValid() && forall k :: 0 <= k < |commands| ==> Sane(commands[k])
    modifies heap
    ensures heap.Valid() && heap.AutosizedValid()
    ensures Story(commands, trace, hs, pics) && |trace| == |commands| && hs[|trace|].ptrs == ptrs
    ensures Placed(bufs, hs[|trace|].xs) && Owns(old(heap.InHand()), heap.InHand(), hs[|trace|].xs, ptrs)
  {
    ghost var start, h := heap.InHand(), Holding([], {});
    trace, bufs, ptrs, hs, pics := [], [], {}, [h], [];
    NothingOwned(start);
    while |trace| < |commands|
      invariant heap.Valid() && heap.AutosizedValid() && |trace| <= |commands|
      invariant Placed(bufs, h.xs) && Owns(start, heap.InHand(), h.xs, ptrs) && h.ptrs == ptrs
      invariant Story(commands, trace, hs, pics) && hs[|trace|] == h
    {
      var o;
      o, bufs, ptrs, h := DoCommand(heap, commands[|trace|], bufs, ptrs, start, h);
      StoryMore(commands, trace, hs, pics, o, h, Pictured(heap));
      trace, hs, pics := trace + [o], hs + [h], pics + [Pictured(heap)];
    }
  }

  /** Once everything has been freed, nothing has leaked and nothing else has gone. */
  lemma AllReturned(start: Use, u: Use)
    requires Owns(start, u, [], {})
    ensures InUse(start) <= u.live <= start.live && DataKept(start.data, u.data, {}) && u.data.Keys == start.data.Keys
  {
    assert Owned([], {}, u.data) == {};
  }
}
