/**
What users of the heap rely on: which blocks are theirs, and what is behind the
pointers that malloc() gave out.  Changes to it are described by the blocks that
were taken and given back, and compose.
*/
module HeapUse {
  import opened FreeList
  import opened HeapModel

  /** offsetof (struct autosized_block, data) */
  const HEADER: nat := 8

  /** Live blocks, those among them that a discarder may free, and the bytes behind pointers from malloc(). */
  datatype Use = Use(live: set<Block>, cached: set<Block>, data: map<nat, seq<bv8>>)

  /** The block around an autosized block's bytes. */
  function AutoBlock(p: nat, len: nat): Block {
    Block(if p >= HEADER then p - HEADER else 0, RoundUp(len + HEADER))
  }

  /** Blocks that nobody but their owner frees. */
  function InUse(u: Use): set<Block> {
    u.live - u.cached
  }

  /** Pointers other than those gone keep their bytes. */
  predicate DataKept(d: map<nat, seq<bv8>>, e: map<nat, seq<bv8>>, gone: set<nat>) {
    forall q :: q in d && q !in gone ==> q in e && e[q] == d[q]
  }

  /** New pointers point into blocks that were taken. */
  predicate DataNew(d: map<nat, seq<bv8>>, e: map<nat, seq<bv8>>, taken: set<Block>) {
    forall q :: q in e && q !in d ==> q >= HEADER && AutoBlock(q, |e[q]|) in taken
  }

  predicate Apart(taken: set<Block>, kept: set<Block>) {
    forall x, y :: x in taken && y in kept ==> x.size > 0 && Disjoint(x, y)
  }

  /**
  The blocks in `taken` are new, those in `given` and the pointers in `gone` are no
  longer in use, and every other block and pointer is untouched.
  */
  ghost predicate Changed(u: Use, v: Use, taken: set<Block>, given: set<Block>, gone: set<nat>) {
    && InUse(u) - given <= v.live <= u.live - given + taken
    && taken <= v.live && taken !! v.cached && v.cached <= u.cached
    && Apart(taken, InUse(u) - given)
    && DataKept(u.data, v.data, gone) && DataNew(u.data, v.data, taken)
  }

  lemma TakenApart(u: Use, v: Use, b: Block)
    requires Changed(u, v, {b}, {}, {})
    ensures forall y :: y in InUse(u) ==> Disjoint(y, b)
  {
    forall y | y in InUse(u) ensures Disjoint(y, b) { assert y in InUse(u) - {} && b in {b}; }
  }

  lemma NothingChanged(u: Use)
    ensures Changed(u, u, {}, {}, {})
  {
  }

  /** With a block that is given back, the pointer into it goes as well. */
  predicate PointersGone(d: map<nat, seq<bv8>>, e: map<nat, seq<bv8>>, given: set<Block>) {
    forall q :: q in d && AutoBlock(q, |d[q]|) in given ==> q !in e
  }

  lemma StillInUse(u: Use, v: Use, taken: set<Block>, given: set<Block>, gone: set<nat>, given': set<Block>, y: Block)
    requires Changed(u, v, taken, given, gone) && y in InUse(u) - (given + (given' - taken))
    ensures y in InUse(v) - given'
  {
    assert y in taken ==> y.size > 0 && Disjoint(y, y);
  }

  /** What is taken and then given back does not count, and neither do pointers that have come and gone. */
  lemma ChangedThen(u: Use, v: Use, w: Use, taken: set<Block>, given: set<Block>, gone: set<nat>,
                    taken': set<Block>, given': set<Block>, gone': set<nat>)
    requires Changed(u, v, taken, given, gone) && Changed(v, w, taken', given', gone')
    requires PointersGone(v.data, w.data, given') && forall q :: q in gone' ==> q !in w.data
    requires forall x :: x in taken + taken' ==> x.size > 0
    ensures Changed(u, w, taken - given' + taken', given + (given' - taken), gone + set q | q in gone' && q in u.data)
  {
    forall y | y in InUse(u) - (given + (given' - taken)) ensures y in InUse(v) - given' {
      StillInUse(u, v, taken, given, gone, given', y);
    }
    forall x | x in taken - given' ensures x in w.live && x !in w.cached { assert x in InUse(v) - given'; }
  }

  /** Allocation of one block. */
  lemma TakenOne(u: Use, v: Use, b: Block)
    requires InUse(u) <= v.live <= u.live + {b} && v.cached <= u.cached && v.data == u.data
    requires b in v.live && b !in v.cached && b.size > 0 && forall y :: y in InUse(u) ==> Disjoint(y, b)
    ensures Changed(u, v, {b}, {}, {})
  {
  }

  /** A pointer to a block just taken. */
  lemma TakenPointer(u: Use, m: Use, v: Use, p: nat, len: nat)
    requires Changed(u, m, {AutoBlock(p, len)}, {}, {}) && p >= HEADER && p !in u.data && m.data == u.data
    requires p in v.data && |v.data[p]| == len && v == m.(data := m.data[p := v.data[p]])
    ensures Changed(u, v, {AutoBlock(p, len)}, {}, {})
  {
  }

  /** Writing to a block just taken changes nothing that was there before. */
  lemma TakenWritten(u: Use, m: Use, v: Use, taken: set<Block>, p: nat)
    requires Changed(u, m, taken, {}, {}) && p !in u.data && p in m.data
    requires p in v.data && |v.data[p]| == |m.data[p]| && v == m.(data := m.data[p := v.data[p]])
    ensures Changed(u, v, taken, {}, {})
  {
  }

  lemma GivenOne(u: Use, v: Use, b: Block)
    requires v.live == u.live - {b} && v.cached == u.cached && v.data == u.data
    ensures Changed(u, v, {}, {b}, {})
  {
  }

  /** Blocks in use other than those lost are still in use, and new pointers are apart from them. */
  ghost predicate Undisturbed(u: Use, v: Use, lost: set<Block>, gone: set<nat>) {
    && InUse(u) - lost <= InUse(v) && DataKept(u.data, v.data, gone)
    && forall q :: q in v.data && q !in u.data ==> q >= HEADER && Apart({AutoBlock(q, |v.data[q]|)}, InUse(u) - lost)
  }

  lemma ChangedUndisturbed(u: Use, v: Use, taken: set<Block>, given: set<Block>, gone: set<nat>)
    requires Changed(u, v, taken, given, gone)
    ensures Undisturbed(u, v, given, gone)
  {
  }
}
