/** process.c: the cooperative scheduler, its fairness, and its references. */
module Process {
  import opened Options
  import opened Lists

  type Proc = nat

  /** What a step handler may do to the run queue. */
  datatype Op = Add(proc: Proc) | Del(proc: Proc)

  /** process_add() and process_del() */
  function Apply(q: seq<Proc>, op: Op): seq<Proc> {
    match op
    case Add(p) => if p in q then q else q + [p]
    case Del(p) => if p in q then Remove(q, p) else q
  }

  function ApplyAll(q: seq<Proc>, ops: seq<Op>): seq<Proc>
    decreases |ops|
  {
    if ops == [] then q else ApplyAll(Apply(q, ops[0]), ops[1..])
  }

  /** step(): the first process moves to the end or leaves the queue, and then runs. */
  function Step(q: seq<Proc>, reschedule: bool, ops: seq<Op>): seq<Proc> {
    if q == [] then [] else ApplyAll(if reschedule then q[1..] + [q[0]] else q[1..], ops)
  }

  /** The processes ahead of p, or all of them. */
  function Ahead(q: seq<Proc>, p: Proc): seq<Proc> {
    if q == [] || q[0] == p then [] else [q[0]] + Ahead(q[1..], p)
  }

  /** One sequence is another with some elements left out. */
  predicate Sub(a: seq<Proc>, b: seq<Proc>)
    decreases |b|
  {
    if a == [] then true else if b == [] then false
    else if a[0] == b[0] then Sub(a[1..], b[1..]) else Sub(a, b[1..])
  }

  lemma {:induction false} SubRefl(a: seq<Proc>)
    ensures Sub(a, a)
  {
    if a != [] { SubRefl(a[1..]); }
  }

  lemma {:induction false} SubDrop(a: seq<Proc>, b: seq<Proc>)
    requires a != [] && Sub(a, b)
    ensures Sub(a[1..], b)
    decreases |b|
  {
    if a[0] == b[0] {
      if a[1..] != [] { SubGrow(a[1..], b); }
    } else {
      SubDrop(a, b[1..]);
      if a[1..] != [] { SubGrow(a[1..], b); }
    }
  }

  lemma {:induction false} SubGrow(a: seq<Proc>, b: seq<Proc>)
    requires b != [] && Sub(a, b[1..])
    ensures Sub(a, b)
    decreases |b|, 0
  {
    if a != [] && a[0] == b[0] { SubDrop(a, b[1..]); }
  }

  lemma {:induction false} SubTrans(a: seq<Proc>, b: seq<Proc>, c: seq<Proc>)
    requires Sub(a, b) && Sub(b, c)
    ensures Sub(a, c) && |a| <= |b|
    decreases |c| + |b|
  {
    if a != [] {
      if b[0] != c[0] {
        SubTrans(a, b, c[1..]);
        SubGrow(a, c);
      } else if a[0] == b[0] {
        SubTrans(a[1..], b[1..], c[1..]);
      } else {
        SubTrans(a, b[1..], c[1..]);
        SubGrow(a, c);
      }
    }
  }

  // ---------------------------------------------------------------------
  // Queue operations
  // ---------------------------------------------------------------------

  lemma {:induction false} RemoveAhead(q: seq<Proc>, x: Proc, p: Proc)
    requires p in q && p != x
    ensures Sub(Ahead(Remove(q, x), p), Ahead(q, p))
  {
    if q[0] == p {
    } else if q[0] == x {
      SubRefl(Ahead(q[1..], p));
      assert Ahead(q, p)[1..] == Ahead(q[1..], p);
      SubGrow(Ahead(q[1..], p), Ahead(q, p));
    } else {
      RemoveAhead(q[1..], x, p);
      var r := [q[0]] + Remove(q[1..], x);
      assert r[1..] == Remove(q[1..], x);
      assert Ahead(r, p)[1..] == Ahead(Remove(q[1..], x), p) && Ahead(q, p)[1..] == Ahead(q[1..], p);
    }
  }

  lemma {:induction false} AppendAhead(q: seq<Proc>, x: Proc, p: Proc)
    requires p in q
    ensures Ahead(q + [x], p) == Ahead(q, p)
  {
    assert (q + [x])[1..] == q[1..] + [x];
    if q[0] != p { AppendAhead(q[1..], x, p); }
  }

  /** An operation on other processes leaves p in the queue, with no new process ahead of it. */
  lemma ApplyKeeps(q: seq<Proc>, op: Op, p: Proc)
    requires Distinct(q) && p in q && op != Del(p)
    ensures Distinct(Apply(q, op)) && p in Apply(q, op) && Sub(Ahead(Apply(q, op), p), Ahead(q, p))
  {
    SubRefl(Ahead(q, p));
    match op
    case Add(x) => if x !in q { AppendAhead(q, x, p); AppendDistinct(q, x); }
    case Del(x) => if x in q { RemoveAhead(q, x, p); RemoveDistinct(q, x); }
  }

  predicate Spares(ops: seq<Op>, p: Proc) {
    forall k :: 0 <= k < |ops| ==> ops[k] != Del(p)
  }

  lemma {:induction false} ApplyAllKeeps(q: seq<Proc>, ops: seq<Op>, p: Proc)
    requires Distinct(q) && p in q && Spares(ops, p)
    ensures Distinct(ApplyAll(q, ops)) && p in ApplyAll(q, ops) && Sub(Ahead(ApplyAll(q, ops), p), Ahead(q, p))
    decreases |ops|
  {
    if ops == [] {
      SubRefl(Ahead(q, p));
    } else {
      ApplyKeeps(q, ops[0], p);
      ApplyAllKeeps(Apply(q, ops[0]), ops[1..], p);
      SubTrans(Ahead(ApplyAll(q, ops), p), Ahead(Apply(q, ops[0]), p), Ahead(q, p));
    }
  }

  /** A step that runs another process: the one that ran is no longer ahead, and no new one is. */
  lemma StepKeeps(q: seq<Proc>, reschedule: bool, ops: seq<Op>, p: Proc)
    requires Distinct(q) && p in q && q[0] != p && Spares(ops, p)
    ensures var r := Step(q, reschedule, ops);
            Distinct(r) && p in r && Sub(Ahead(r, p), Ahead(q, p)[1..])
  {
    var t := if reschedule then q[1..] + [q[0]] else q[1..];
    if reschedule {
      AppendDistinct(q[1..], q[0]);
      AppendAhead(q[1..], q[0], p);
    }
    assert Ahead(q, p)[1..] == Ahead(q[1..], p) == Ahead(t, p);
    ApplyAllKeeps(t, ops, p);
  }

  // ---------------------------------------------------------------------
  // Runs
  // ---------------------------------------------------------------------

  /** One turn of the scheduler: whether the process that runs is rescheduled, and what it does. */
  datatype Turn = Turn(reschedule: bool, ops: seq<Op>)

  /** The process that runs in each turn. */
  function Executed(q: seq<Proc>, turns: seq<Turn>): (e: seq<Option<Proc>>)
    ensures |e| == |turns|
    decreases |turns|
  {
    if turns == [] then []
    else [if q == [] then None else Some(q[0])] + Executed(Step(q, turns[0].reschedule, turns[0].ops), turns[1..])
  }

  /**
  A process with k others ahead of it runs within k + 1 turns unless it is removed,
  and every process that runs before it was ahead of it, each of them only once.
  */
  lemma {:induction false} Fair(q: seq<Proc>, turns: seq<Turn>, p: Proc)
    requires Distinct(q) && p in q && |turns| > |Ahead(q, p)|
    requires forall k :: 0 <= k < |turns| ==> Spares(turns[k].ops, p)
    ensures exists k :: 0 <= k <= |Ahead(q, p)| && RunsAt(q, turns, p, k)
    decreases |turns|
  {
    if q[0] == p {
      assert RunsAt(q, turns, p, 0);
    } else {
      var r := Step(q, turns[0].reschedule, turns[0].ops);
      StepKeeps(q, turns[0].reschedule, turns[0].ops, p);
      var a := Ahead(q, p);
      SubRefl(a[1..]);
      SubTrans(Ahead(r, p), a[1..], a[1..]);
      Fair(r, turns[1..], p);
      var k :| 0 <= k <= |Ahead(r, p)| && RunsAt(r, turns[1..], p, k);
      RunsLater(q, turns, p, k);
    }
  }

  /** Turn k is the first to run p, and the earlier ones run processes that were ahead of it, in their order. */
  ghost predicate RunsAt(q: seq<Proc>, turns: seq<Turn>, p: Proc, k: nat) {
    k < |turns| && Executed(q, turns)[k] == Some(p) && InOrder(Executed(q, turns)[..k], Ahead(q, p))
  }

  predicate InOrder(ran: seq<Option<Proc>>, ahead: seq<Proc>) {
    (forall k :: 0 <= k < |ran| ==> ran[k].Some?) && Sub(Values(ran), ahead)
  }

  function Values(ran: seq<Option<Proc>>): seq<Proc> {
    if ran == [] then [] else (if ran[0].Some? then [ran[0].value] else []) + Values(ran[1..])
  }

  lemma RunsLater(q: seq<Proc>, turns: seq<Turn>, p: Proc, k: nat)
    requires Distinct(q) && p in q && turns != [] && q[0] != p && Spares(turns[0].ops, p)
    requires RunsAt(Step(q, turns[0].reschedule, turns[0].ops), turns[1..], p, k)
    ensures RunsAt(q, turns, p, k + 1)
  {
    var r := Step(q, turns[0].reschedule, turns[0].ops);
    var e, f := Executed(q, turns), Executed(r, turns[1..]);
    assert e == [Some(q[0])] + f;
    assert e[..k + 1] == [Some(q[0])] + f[..k] && e[..k + 1][1..] == f[..k];
    StepKeeps(q, turns[0].reschedule, turns[0].ops, p);
    SubTrans(Values(f[..k]), Ahead(r, p), Ahead(q, p)[1..]);
    assert Values(e[..k + 1]) == [q[0]] + Values(f[..k]);
    assert Values(e[..k + 1])[1..] == Values(f[..k]);
  }

  // ---------------------------------------------------------------------
  // Processes that are added or removed
  // ---------------------------------------------------------------------

  /** The place of p, if it had one, has been closed up, and nothing else has changed. */
  predicate Gone(q: seq<Proc>, p: Proc, r: seq<Proc>) {
    && p !in r && (p !in q ==> r == q)
    && forall k :: 0 <= k < |q| && q[k] == p ==> r == q[..k] + q[k + 1..]
  }

  lemma DelGone(q: seq<Proc>, p: Proc)
    requires Distinct(q)
    ensures Gone(q, p, Apply(q, Del(p)))
  {
    RemoveDistinct(q, p);
    forall k | 0 <= k < |q| && q[k] == p ensures Remove(q, p) == q[..k] + q[k + 1..] { RemoveAt(q, k); }
  }

  lemma ApplyDistinct(q: seq<Proc>, op: Op)
    requires Distinct(q)
    ensures Distinct(Apply(q, op)) && (op.Add? ==> op.proc in Apply(q, op))
  {
    match op
    case Add(x) => if x !in q { AppendDistinct(q, x); }
    case Del(x) => if x in q { RemoveDistinct(q, x); }
  }

  lemma {:induction false} ApplyAllDistinct(q: seq<Proc>, ops: seq<Op>)
    requires Distinct(q)
    ensures Distinct(ApplyAll(q, ops))
    decreases |ops|
  {
    if ops != [] {
      ApplyDistinct(q, ops[0]);
      ApplyAllDistinct(Apply(q, ops[0]), ops[1..]);
    }
  }

  /** A process that is added, and not removed again, is in the queue. */
  lemma {:induction false} AddedIn(q: seq<Proc>, ops: seq<Op>, j: nat, p: Proc)
    requires Distinct(q) && j < |ops| && ops[j] == Add(p) && Spares(ops[j + 1..], p)
    ensures p in ApplyAll(q, ops)
    decreases |ops|
  {
    ApplyDistinct(q, ops[0]);
    if j == 0 {
      ApplyAllKeeps(Apply(q, ops[0]), ops[1..], p);
    } else {
      assert ops[1..][j..] == ops[j + 1..];
      AddedIn(Apply(q, ops[0]), ops[1..], j - 1, p);
    }
  }

  function Adds(ps: seq<Proc>): seq<Op> {
    seq(|ps|, k requires 0 <= k < |ps| => Add(ps[k]))
  }

  /** New processes queue up in the order in which they are added. */
  lemma {:induction false} AddsAppend(q: seq<Proc>, ps: seq<Proc>)
    requires Distinct(q + ps)
    ensures ApplyAll(q, Adds(ps)) == q + ps
    decreases |ps|
  {
    if ps == [] {
      assert q + ps == q;
    } else {
      DistinctIff(q + ps);
      forall k | 0 <= k < |q| ensures q[k] != ps[0] { assert (q + ps)[k] == q[k] && (q + ps)[|q|] == ps[0]; }
      assert q + [ps[0]] + ps[1..] == q + ps && Adds(ps)[1..] == Adds(ps[1..]);
      AddsAppend(q + [ps[0]], ps[1..]);
    }
  }

  /** The process that runs is behind all others, and in front of those that it adds, or has left the queue. */
  lemma StepAdds(q: seq<Proc>, reschedule: bool, ps: seq<Proc>)
    requires q != [] && Distinct(q + ps)
    ensures Step(q, reschedule, Adds(ps)) == q[1..] + (if reschedule then [q[0]] else []) + ps
  {
    var t := q[1..] + if reschedule then [q[0]] else [];
    DistinctIff(q + ps);
    DistinctIff(t + ps);
    forall i, j | 0 <= i < j < |t + ps| ensures (t + ps)[i] != (t + ps)[j] {
      var a := if i < |q| - 1 then i + 1 else if !reschedule then i + 1 else if i == |q| - 1 then 0 else i;
      var b := if j < |q| - 1 then j + 1 else if !reschedule then j + 1 else if j == |q| - 1 then 0 else j;
      assert (t + ps)[i] == (q + ps)[a] && (t + ps)[j] == (q + ps)[b] && a != b;
    }
    assert t == if reschedule then q[1..] + [q[0]] else q[1..];
    AddsAppend(t, ps);
  }

  /** The queue after n turns. */
  function Queue(q: seq<Proc>, turns: seq<Turn>, n: nat): seq<Proc>
    requires n <= |turns|
    decreases n
  {
    if n == 0 then q else Queue(Step(q, turns[0].reschedule, turns[0].ops), turns[1..], n - 1)
  }

  lemma {:induction false} QueueNext(q: seq<Proc>, turns: seq<Turn>, n: nat)
    requires n < |turns|
    ensures Queue(q, turns, n + 1) == Step(Queue(q, turns, n), turns[n].reschedule, turns[n].ops)
    decreases n
  {
    if n > 0 { QueueNext(Step(q, turns[0].reschedule, turns[0].ops), turns[1..], n - 1); }
  }

  lemma {:induction false} QueueDistinct(q: seq<Proc>, turns: seq<Turn>, n: nat)
    requires Distinct(q) && n <= |turns|
    ensures Distinct(Queue(q, turns, n))
    decreases n
  {
    if n > 0 {
      if q != [] {
        AppendDistinct(q[1..], q[0]);
        ApplyAllDistinct(if turns[0].reschedule then q[1..] + [q[0]] else q[1..], turns[0].ops);
      }
      QueueDistinct(Step(q, turns[0].reschedule, turns[0].ops), turns[1..], n - 1);
    }
  }

  lemma {:induction false} ExecutedFrom(q: seq<Proc>, turns: seq<Turn>, n: nat, k: nat)
    requires n + k < |turns|
    ensures Executed(q, turns)[n + k] == Executed(Queue(q, turns, n), turns[n..])[k]
    decreases n
  {
    if n == 0 {
      assert turns[0..] == turns;
    } else {
      var r := Step(q, turns[0].reschedule, turns[0].ops);
      assert Executed(q, turns)[n + k] == Executed(r, turns[1..])[n - 1 + k] && turns[1..][n - 1..] == turns[n..];
      ExecutedFrom(r, turns[1..], n - 1, k);
    }
  }

  lemma {:induction false} AheadShort(q: seq<Proc>, p: Proc)
    requires p in q
    ensures |Ahead(q, p)| < |q|
  {
    if q[0] != p { AheadShort(q[1..], p); }
  }

  lemma StepAdded(s: seq<Proc>, turn: Turn, j: nat, p: Proc)
    requires Distinct(s) && s != []
    requires j < |turn.ops| && turn.ops[j] == Add(p) && Spares(turn.ops[j + 1..], p)
    ensures p in Step(s, turn.reschedule, turn.ops)
  {
    AppendDistinct(s[1..], s[0]);
    AddedIn(if turn.reschedule then s[1..] + [s[0]] else s[1..], turn.ops, j, p);
  }

  /** Fair(), from turn m on. */
  lemma FairFrom(q: seq<Proc>, turns: seq<Turn>, m: nat, p: Proc)
    requires Distinct(q) && m <= |turns| && p in Queue(q, turns, m) && |turns| >= m + |Queue(q, turns, m)|
    requires forall k :: m <= k < |turns| ==> Spares(turns[k].ops, p)
    ensures exists k :: m <= k < m + |Queue(q, turns, m)| && Executed(q, turns)[k] == Some(p)
  {
    var r, rest := Queue(q, turns, m), turns[m..];
    QueueDistinct(q, turns, m);
    AheadShort(r, p);
    Fair(r, rest, p);
    var k :| 0 <= k <= |Ahead(r, p)| && RunsAt(r, rest, p, k);
    ExecutedFrom(q, turns, m, k);
    assert Executed(q, turns)[m + k] == Some(p);
  }

  /**
  A process that is added in some turn, by the process that runs in it, runs within as many further turns as there
  are then processes in the queue, unless it is removed.
  */
  lemma AddedRuns(q: seq<Proc>, turns: seq<Turn>, n: nat, j: nat, p: Proc)
    requires Distinct(q) && n < |turns| && Queue(q, turns, n) != []
    requires j < |turns[n].ops| && turns[n].ops[j] == Add(p) && Spares(turns[n].ops[j + 1..], p)
    requires |turns| > n + |Queue(q, turns, n + 1)| && forall k :: n < k < |turns| ==> Spares(turns[k].ops, p)
    ensures exists k :: n < k <= n + |Queue(q, turns, n + 1)| && Executed(q, turns)[k] == Some(p)
  {
    QueueDistinct(q, turns, n);
    QueueNext(q, turns, n);
    StepAdded(Queue(q, turns, n), turns[n], j, p);
    FairFrom(q, turns, n + 1, p);
  }

  // ---------------------------------------------------------------------
  // The code
  // ---------------------------------------------------------------------

  function Bit(b: bool): int {
    if b then 1 else 0
  }

  class Scheduler {
    var runQueue: seq<Proc>
    // Reference counts, and the references that others hold
    var refs: map<Proc, int>
    ghost var base: map<Proc, int>
    ghost var running: Option<Proc>

    /** A queued process has one reference from the queue, and one more while it runs. */
    ghost predicate Valid()
      reads this
    {
      && Distinct(runQueue) && refs.Keys == base.Keys && (forall p :: p in runQueue ==> p in refs)
      && (running.Some? ==> running.value in refs)
      && forall p :: p in refs ==> refs[p] == base[p] + Bit(p in runQueue) + Bit(running == Some(p))
    }

    /** An empty run queue, and processes with the references that others hold. */
    constructor (processes: map<Proc, int>)
      ensures Valid() && runQueue == [] && running.None? && refs == base == processes
    {
      runQueue, refs, base, running := [], processes, processes, None;
    }

    /** process_add() */
    method Add(p: Proc)
      requires Valid() && p in refs
      modifies `runQueue, `refs
      ensures Valid() && runQueue == Apply(old(runQueue), Op.Add(p)) && refs.Keys == old(refs.Keys)
      ensures p in old(runQueue) ==> runQueue == old(runQueue) && refs == old(refs)
      ensures p !in old(runQueue) ==> runQueue == old(runQueue) + [p] && refs == old(refs)[p := old(refs)[p] + 1]
    {
      if p !in runQueue {
        AppendDistinct(runQueue, p);
        refs := refs[p := refs[p] + 1];
        runQueue := runQueue + [p];
      }
    }

    /** process_del() */
    method Delete(p: Proc)
      requires Valid()
      modifies `runQueue, `refs
      ensures Valid() && runQueue == Apply(old(runQueue), Op.Del(p)) && refs.Keys == old(refs.Keys)
      ensures Gone(old(runQueue), p, runQueue)
      ensures if p in old(runQueue) then p in old(refs) && refs == old(refs)[p := old(refs)[p] - 1]
              else refs == old(refs)
    {
      DelGone(runQueue, p);
      if p in runQueue {
        RemoveDistinct(runQueue, p);
        runQueue := Remove(runQueue, p);
        refs := refs[p := refs[p] - 1];
      }
    }

    /** What the step handler of the running process does. */
    method Handler(ops: seq<Op>)
      requires Valid() && forall k :: 0 <= k < |ops| ==> ops[k].proc in refs
      modifies `runQueue, `refs
      ensures Valid() && runQueue == ApplyAll(old(runQueue), ops) && refs.Keys == old(refs.Keys)
      decreases |ops|
    {
      if ops == [] { return; }
      match ops[0] {
        case Add(p) => Add(p);
        case Del(p) => Delete(p);
      }
      Handler(ops[1..]);
    }

    /** Take a reference to the first process, so that it cannot be destroyed while it runs. */
    method Begin(p: Proc)
      requires Valid() && running.None? && p in refs
      modifies `refs, `running
      ensures Valid() && running == Some(p) && refs.Keys == old(refs.Keys)
    {
      refs := refs[p := refs[p] + 1];
      running := Some(p);
    }

    /** Move the first process to the end of the queue. */
    method Requeue()
      requires Valid() && runQueue != []
      modifies `runQueue
      ensures Valid() && runQueue == old(runQueue)[1..] + [old(runQueue)[0]]
    {
      AppendDistinct(runQueue[1..], runQueue[0]);
      assert forall p :: p in runQueue <==> p in runQueue[1..] + [runQueue[0]];
      runQueue := runQueue[1..] + [runQueue[0]];
    }

    method End(p: Proc)
      requires Valid() && running == Some(p)
      modifies `refs, `running
      ensures Valid() && running.None? && refs.Keys == old(refs.Keys)
    {
      refs := refs[p := refs[p] - 1];
      running := None;
    }

    /** step(): the first process in the queue runs. */
    method SingleStep(reschedule: bool, ops: seq<Op>) returns (ran: Option<Proc>)
      requires Valid() && running.None? && forall k :: 0 <= k < |ops| ==> ops[k].proc in refs
      modifies `runQueue, `refs, `running
      ensures Valid() && running.None? && runQueue == Step(old(runQueue), reschedule, ops) &&
              refs.Keys == old(refs.Keys)
      ensures ran == if old(runQueue) == [] then None else Some(old(runQueue)[0])
    {
      if runQueue == [] { return None; }
      var p := runQueue[0];
      ran := Some(p);
      Begin(p);
      if reschedule {
        Requeue();
      } else {
        Delete(p);
      }
      Handler(ops);
      End(p);
    }

    /** One step() after the other. */
    method Run(turns: seq<Turn>) returns (ran: seq<Option<Proc>>)
      requires Valid() && running.None?
      requires forall n, k :: 0 <= n < |turns| && 0 <= k < |turns[n].ops| ==> turns[n].ops[k].proc in refs
      modifies `runQueue, `refs, `running
      ensures Valid() && running.None? && ran == Executed(old(runQueue), turns)
      ensures runQueue == Queue(old(runQueue), turns, |turns|)
      decreases |turns|
    {
      if turns == [] { return []; }
      assert forall k :: 0 <= k < |turns[0].ops| ==> turns[0].ops[k].proc in refs;
      var first := SingleStep(turns[0].reschedule, turns[0].ops);
      var rest := Run(turns[1..]);
      ran := [first] + rest;
    }
  }
}
