/** sanboot.c: path management, (re)opening, and fragmented reads and writes. */
module SanDevice {
  import opened Options
  import opened Lists
  import opened SanModel
  import opened Powers

  lemma {:induction false} FirstExitMore(s: San, es: seq<Event>, e: Event)
    ensures FirstExit(s, es + [e]) ==
            if FirstExit(s, es).Some? then FirstExit(s, es) else if Exits(ApplyAll(s, es), e) then Some(e) else None
    decreases |es|
  {
    if es == [] {
      assert [e][1..] == [];
    } else {
      assert (es + [e])[1..] == es[1..] + [e];
      FirstExitMore(Apply(s, es[0]), es[1..], e);
    }
  }

  /** No path has left the list of opened ones because another was already active. */
  predicate NoSurplus(s: San, es: seq<Event>) {
    FirstExit(s, es).Some? ==> FirstExit(s, es).value.BlockClosed?
  }

  lemma SingleEvent(s: San, es: seq<Event>, e: Event, t: San)
    requires Inv(s) && LegalRun(s, es) && t == ApplyAll(s, es) && Legal(t, e) && s.closedPaths == [] &&
             NoSurplus(s, es) && t.active.None?
    ensures NoSurplus(s, es + [e])
  {
    RunInv(s, es);
    HeadTells(s, es);
    FirstExitMore(s, es, e);
    if t.closedPaths == [] { ApplyHead(t, e); }
  }

  /** A single event cannot both make a path active and find another one surplus. */
  lemma SingleStep(s: San, es: seq<Event>, step: seq<Event>)
    requires Inv(s) && LegalRun(s, es + step) && s.closedPaths == [] && NoSurplus(s, es) && |step| <= 1 &&
             ApplyAll(s, es).active.None?
    ensures NoSurplus(s, es + step)
  {
    ApplyConcat(s, es, step);
    if |step| == 1 {
      assert step == [step[0]];
      SingleEvent(s, es, step[0], ApplyAll(s, es));
    } else {
      assert es + step == es;
    }
  }

  datatype Outcome = Done(rc: int) | Waiting

  // ---------------------------------------------------------------------
  // The events that turns of the scheduler bring
  // ---------------------------------------------------------------------

  /** What happens in turn k, given the state the device is in. */
  type Env = (San, nat) -> seq<Event>

  ghost predicate Behaves(env: Env) {
    forall s, k: nat :: Inv(s) ==> LegalRun(s, env(s, k))
  }

  predicate OneEach(env: Env, s: San, k: nat) {
    |env(s, k)| <= 1
  }

  /** All events of the first n turns. */
  function Events(s: San, env: Env, n: nat): seq<Event> {
    if n == 0 then [] else var es := Events(s, env, n - 1); es + env(ApplyAll(s, es), n - 1)
  }

  function After(s: San, env: Env, n: nat): San {
    ApplyAll(s, Events(s, env, n))
  }

  lemma {:induction false} EventsLegal(s: San, env: Env, n: nat)
    requires Inv(s) && Behaves(env)
    ensures LegalRun(s, Events(s, env, n)) && Inv(After(s, env, n)) && After(s, env, n).rc.Keys == s.rc.Keys
  {
    if n > 0 {
      EventsLegal(s, env, n - 1);
      var es := Events(s, env, n - 1);
      ApplyConcat(s, es, env(ApplyAll(s, es), n - 1));
    }
    RunInv(s, Events(s, env, n));
  }

  lemma AfterMore(s: San, env: Env, n: nat)
    ensures After(s, env, n + 1) == ApplyAll(After(s, env, n), env(After(s, env, n), n))
  {
    ApplyConcat(s, Events(s, env, n), env(After(s, env, n), n));
  }

  /** After k turns there is no active path, but one that is still opened. */
  predicate Unsettled(s: San, env: Env, k: nat) {
    var t := After(s, env, k);
    t.active.None? && t.openedPaths != []
  }

  /** With at most one event per turn, no path is closed as surplus before the wait is over. */
  lemma {:induction false} SingleSteps(s: San, env: Env, n: nat)
    requires Inv(s) && Behaves(env) && s.closedPaths == [] && s.active.None?
    requires (forall t, k :: OneEach(env, t, k)) && forall k :: 0 < k < n ==> Unsettled(s, env, k)
    ensures NoSurplus(s, Events(s, env, n))
  {
    if n > 0 {
      SingleSteps(s, env, n - 1);
      assert n > 1 ==> Unsettled(s, env, n - 1);
      EventsLegal(s, env, n);
      assert OneEach(env, After(s, env, n - 1), n - 1);
      SingleStep(s, Events(s, env, n - 1), env(After(s, env, n - 1), n - 1));
    }
  }

  /** How the wait ends in a state: the status is that of the first path on the closed list. */
  function OutcomeOf(t: San, n: nat): Outcome {
    if t.active.Some? then Done(0)
    else if n > 0 && t.openedPaths == [] then
      Done(if t.closedPaths != [] && t.closedPaths[0] in t.rc then t.rc[t.closedPaths[0]] else ENODEV)
    else Waiting
  }

  // ---------------------------------------------------------------------
  // Closing and opening all paths
  // ---------------------------------------------------------------------

  /** Opened paths have the new status, closed ones the old one. */
  predicate StatusAfter(s: San, status: map<nat, int>, rc: int) {
    forall p :: p in s.rc && p in status ==> status[p] == if p in s.openedPaths then rc else s.rc[p]
  }

  /** The first k opened paths of s have been closed. */
  ghost predicate Closing(s: San, t: San, rc: int, k: nat) {
    && k <= |s.openedPaths| && t.closedPaths == s.closedPaths + s.openedPaths[..k]
    && t.openedPaths == s.openedPaths[k..]
    && forall p :: p in s.rc && p in t.rc ==> t.rc[p] == if p in s.openedPaths[..k] then rc else s.rc[p]
  }

  lemma CloseFirst(s: San, t: San, rc: int, k: nat)
    requires Inv(t) && Closing(s, t, rc, k) && t.openedPaths != []
    ensures Closing(s, ClosePath(t, t.openedPaths[0], rc), rc, k + 1)
  {
    var p := t.openedPaths[0];
    RemoveFirst(t.openedPaths);
    RemoveAbsent(t.closedPaths, p);
    assert s.openedPaths[..k + 1] == s.openedPaths[..k] + [p] && s.openedPaths[k + 1..] == s.openedPaths[k..][1..];
  }

  /** Some paths of a list have been opened, from the front, and are in progress. */
  ghost predicate Opening(list: seq<nat>, t: San, openRc: nat -> int) {
    && t.openedPaths + t.closedPaths == list
    && forall p :: p in t.openedPaths ==> openRc(p) == 0 && p in t.queued && p in t.rc && t.rc[p] == EINPROGRESS
  }

  lemma OpenFirst(list: seq<nat>, t: San, openRc: nat -> int)
    requires Inv(t) && Opening(list, t, openRc) && t.closedPaths != []
    ensures openRc(t.closedPaths[0]) == 0 ==> Opening(list, OpenPath(t, t.closedPaths[0]), openRc)
    ensures |OpenPath(t, t.closedPaths[0]).closedPaths| < |t.closedPaths|
  {
    var p := t.closedPaths[0];
    RemoveFirst(t.closedPaths);
    RemoveAbsent(t.openedPaths, p);
    assert t.openedPaths + [p] + t.closedPaths[1..] == t.openedPaths + t.closedPaths;
  }

  predicate AllClosed(s: San) {
    s.openedPaths == [] && s.active.None? && s.queued == {}
  }

  /**
  sandev_reopen() from s to t: all paths are closed and then opened in order, which leads to `start`, and n
  turns are waited for one to become active or all to fail.
  */
  ghost predicate Reopened(s: San, t: San, openRc: nat -> int, env: Env, turns: nat, r: Outcome, start: San, n: nat) {
    && Inv(start) && start.active.None? && !start.timer && n <= turns && start.rc.Keys == s.rc.Keys == t.rc.Keys
    && Opening(s.closedPaths + s.openedPaths, start, openRc)
    && (start.closedPaths != [] ==> r == Done(openRc(start.closedPaths[0])) && r.rc != 0 && AllClosed(t) && !t.timer)
    && (start.closedPaths == [] ==> Waited(start, t, env, turns, r, n))
  }

  ghost predicate Waited(start: San, t: San, env: Env, turns: nat, r: Outcome, n: nat) {
    var u := After(start, env, n);
    && r == OutcomeOf(u, n) && (r.Waiting? ==> n == turns) && (forall k :: 0 < k < n ==> Unsettled(start, env, k))
    && if r.Done? && u.active.None? then AllClosed(t) && !t.timer else t == u
  }

  /** Success means an active path, except when the first path to be closed was surplus. */
  lemma ReopenedIff(s: San, t: San, openRc: nat -> int, env: Env, turns: nat, r: Outcome, start: San, n: nat)
    requires Reopened(s, t, openRc, env, turns, r, start, n) && Behaves(env) && r.Done?
    ensures start.closedPaths == [] ==> (r.rc == 0 <==> t.active.Some? || !NoSurplus(start, Events(start, env, n)))
    ensures (forall u, k :: OneEach(env, u, k)) ==> (r.rc == 0 <==> t.active.Some?)
    ensures r.rc != 0 ==> AllClosed(t)
  {
    if start.closedPaths == [] {
      WaitedIff(start, t, env, turns, r, n);
      if forall u, k :: OneEach(env, u, k) { SingleSteps(start, env, n); }
    }
  }

  lemma WaitedIff(start: San, t: San, env: Env, turns: nat, r: Outcome, n: nat)
    requires Waited(start, t, env, turns, r, n) && Inv(start) && start.closedPaths == [] && Behaves(env) && r.Done?
    ensures r.rc == 0 <==> t.active.Some? || !NoSurplus(start, Events(start, env, n))
    ensures r.rc != 0 ==> AllClosed(t)
  {
    EventsLegal(start, env, n);
    HeadTells(start, Events(start, env, n));
  }

  function FirstPaths(n: nat): seq<nat> {
    if n == 0 then [] else FirstPaths(n - 1) + [n - 1]
  }

  lemma {:induction false} PathsDistinct(n: nat)
    ensures Distinct(FirstPaths(n)) && forall p: nat :: p in FirstPaths(n) <==> p < n
  {
    if n > 0 {
      PathsDistinct(n - 1);
      AppendDistinct(FirstPaths(n - 1), n - 1);
    }
  }

  class Device {
    var openedPaths: seq<nat>
    var closedPaths: seq<nat>
    var active: Option<nat>
    // Paths whose process is in the run queue; status of each path
    var queued: set<nat>
    var pathRc: map<nat, int>
    var commandRc: int
    var timer: bool

    ghost function Model(): San
      reads this
    {
      San(openedPaths, closedPaths, active, queued, pathRc, commandRc, timer)
    }

    /** alloc_sandev(): all paths are closed. */
    constructor (paths: nat)
      ensures Inv(Model()) && AllClosed(Model()) && closedPaths == FirstPaths(paths) && !timer
      ensures forall p :: p in pathRc ==> pathRc[p] == EINPROGRESS
    {
      openedPaths, closedPaths, active, queued := [], FirstPaths(paths), None, {};
      pathRc := map p | p in FirstPaths(paths) :: EINPROGRESS;
      commandRc, timer := 0, false;
      new;
      PathsDistinct(paths);
    }

    /** sandev_command_close() */
    method CommandClose(rc: int)
      modifies this
      ensures Model() == SanModel.CommandClose(old(Model()), rc)
    {
      timer := false;
      commandRc := rc;
    }

    /** sanpath_close(): wherever the path was, it is the last of the closed ones, and it is idle. */
    method Close(p: nat, rc: int)
      requires Inv(Model()) && p in pathRc
      modifies this
      ensures Inv(Model()) && Model() == ClosePath(old(Model()), p, rc) && pathRc.Keys == old(pathRc.Keys)
      ensures closedPaths != [] && closedPaths[|closedPaths| - 1] == p && p !in openedPaths && p !in queued &&
              active != Some(p)
      ensures pathRc[p] == rc && (old(active) == Some(p) ==> commandRc == rc && !timer)
    {
      CloseInv(Model(), p, rc);
      pathRc := pathRc[p := rc];
      openedPaths, closedPaths := Remove(openedPaths, p), Remove(closedPaths, p) + [p];
      queued := queued - {p};
      if active == Some(p) {
        active := None;
        CommandClose(rc);
      }
    }

    /**
    sanpath_open(), given the status of opening the URI: the path is the last of the opened ones, with its process
    queued.
    */
    method Open(p: nat, openRc: int) returns (rc: int)
      requires Inv(Model()) && p in closedPaths
      modifies this
      ensures Inv(Model()) && rc == openRc && Model() == if rc == 0 then OpenPath(old(Model()), p) else old(Model())
      ensures rc == 0 ==>
                && openedPaths != [] && openedPaths[|openedPaths| - 1] == p && p !in closedPaths && p in queued
                && p in pathRc && pathRc[p] == EINPROGRESS && active == old(active)
    {
      rc := openRc;
      if rc != 0 { return; }
      OpenInv(Model(), p);
      RemoveDistinct(closedPaths, p);
      queued := queued + {p};
      closedPaths := Remove(closedPaths, p);
      openedPaths := Remove(openedPaths, p) + [p];
      pathRc := pathRc[p := EINPROGRESS];
    }

    /**
    sanpath_step(): the first path to be ready becomes the active one, and later ones are closed without an error.
    */
    method Step(p: nat, ready: bool)
      requires Inv(Model()) && p in openedPaths
      modifies this
      ensures Inv(Model()) && Model() == StepPath(old(Model()), p, ready) && pathRc.Keys == old(pathRc.Keys)
      ensures !ready || old(active) == Some(p) ==> Model() == old(Model())
      ensures ready && old(active).None? ==> active == Some(p) && p in openedPaths && p in pathRc && pathRc[p] == 0
      ensures ready && old(active).Some? && old(active) != Some(p) ==>
              active == old(active) && p in closedPaths && p in pathRc && pathRc[p] == 0
    {
      StepInv(Model(), p, ready);
      if active == Some(p) { return; }
      if !ready { return; }
      pathRc := pathRc[p := 0];
      if active.None? {
        active := Some(p);
      } else {
        Close(p, 0);
      }
    }

    /** One event: closing a block interface is always an error. */
    method Handle(e: Event)
      requires Inv(Model()) && Legal(Model(), e)
      modifies this
      ensures Inv(Model()) && Model() == Apply(old(Model()), e) && pathRc.Keys == old(pathRc.Keys)
      ensures e.BlockClosed? ==>
                e.path in closedPaths && e.path in pathRc && pathRc[e.path] == if e.rc == 0 then ENOTCONN else e.rc
      ensures e.CommandDone? ==> commandRc == e.rc && !timer
      ensures e.Run? ==> e.path !in queued
      ensures (e.Run? || e.Window?) && e.ready && old(active).None? ==> active == Some(e.path)
    {
      match e {
        case Run(p, ready) =>
          queued := queued - {p};
          Step(p, ready);
        case Window(p, ready) => Step(p, ready);
        case BlockClosed(p, rc) => Close(p, if rc == 0 then ENOTCONN else rc);
        case CommandDone(rc) => CommandClose(rc);
      }
    }

    /** step(): whatever events one turn of the scheduler brings. */
    method Turn(es: seq<Event>)
      requires Inv(Model()) && LegalRun(Model(), es)
      modifies this
      ensures Inv(Model()) && Model() == ApplyAll(old(Model()), es) && pathRc.Keys == old(pathRc.Keys)
    {
      ghost var s := Model();
      var k := 0;
      assert es[..0] == [] && es[0..] == es;
      while k < |es|
        invariant 0 <= k <= |es| && Model() == ApplyAll(s, es[..k]) && Inv(Model()) && LegalRun(Model(), es[k..])
        invariant pathRc.Keys == old(pathRc.Keys)
      {
        assert es[k..][1..] == es[k + 1..];
        Handle(es[k]);
        assert es[..k + 1] == es[..k] + [es[k]];
        ApplyConcat(s, es[..k], [es[k]]);
        assert [es[k]][1..] == [];
        k := k + 1;
      }
      assert es[..k] == es;
    }

    /** sandev_restart(): the opened paths are closed with the given status, in their order. */
    method Restart(rc: int)
      requires Inv(Model())
      modifies this
      ensures Inv(Model()) && AllClosed(Model()) && pathRc.Keys == old(pathRc.Keys) && commandRc == rc && !timer
      ensures closedPaths == old(closedPaths) + old(openedPaths) && StatusAfter(old(Model()), pathRc, rc)
    {
      ghost var s, k: nat := Model(), 0;
      while openedPaths != []
        invariant Inv(Model()) && pathRc.Keys == old(pathRc.Keys) && Closing(s, Model(), rc, k)
        decreases |openedPaths|
      {
        CloseInv(Model(), openedPaths[0], rc);
        CloseFirst(s, Model(), rc, k);
        Close(openedPaths[0], rc);
        k := k + 1;
      }
      assert s.openedPaths[..k] == s.openedPaths;
      active := None;
      CommandClose(rc);
    }

    /** The loop that opens all paths, until one cannot be opened. */
    method OpenAll(openRc: nat -> int) returns (rc: int)
      requires Inv(Model()) && AllClosed(Model())
      modifies this
      ensures Inv(Model()) && pathRc.Keys == old(pathRc.Keys) && active.None? && timer == old(timer)
      ensures Opening(old(closedPaths), Model(), openRc)
      ensures if closedPaths == [] then rc == 0 else rc == openRc(closedPaths[0]) != 0
    {
      rc := 0;
      while closedPaths != []
        invariant Inv(Model()) && pathRc.Keys == old(pathRc.Keys) && active.None? && timer == old(timer) && rc == 0
        invariant Opening(old(closedPaths), Model(), openRc)
        decreases |closedPaths|
      {
        var p := closedPaths[0];
        OpenInv(Model(), p);
        OpenFirst(old(closedPaths), Model(), openRc);
        rc := Open(p, openRc(p));
        if rc != 0 { return; }
      }
    }

    /** Wait for any path to become available, or for all paths to fail; n turns were taken. */
    method Wait(env: Env, turns: nat) returns (r: Outcome, n: nat)
      requires Inv(Model()) && Behaves(env) && active.None? && closedPaths == []
      modifies this
      ensures Inv(Model()) && pathRc.Keys == old(pathRc.Keys)
      ensures n <= turns && Model() == After(old(Model()), env, n) && r == OutcomeOf(Model(), n) &&
              (r.Waiting? ==> n == turns)
      ensures forall k :: 0 < k < n ==> Unsettled(old(Model()), env, k)
    {
      ghost var s := Model();
      n := 0;
      while active.None?
        invariant n <= turns && Model() == After(s, env, n) && Inv(Model()) && pathRc.Keys == old(pathRc.Keys)
        invariant n > 0 && active.None? ==> openedPaths != []
        invariant forall k :: 0 < k < n ==> Unsettled(s, env, k)
        decreases turns - n, active.None?
      {
        if n == turns { return Waiting, n; }
        assert n > 0 ==> Unsettled(s, env, n);
        TakeTurn(env, s, n);
        n := n + 1;
        if openedPaths == [] {
          var rc := FirstStatus();
          return Done(rc), n;
        }
      }
      r := Done(0);
    }

    /** Turn n, since state s. */
    method TakeTurn(env: Env, ghost s: San, n: nat)
      requires Inv(Model()) && Behaves(env) && Model() == After(s, env, n)
      modifies this
      ensures Inv(Model()) && Model() == After(s, env, n + 1) && pathRc.Keys == old(pathRc.Keys)
    {
      AfterMore(s, env, n);
      var es := env(San(openedPaths, closedPaths, active, queued, pathRc, commandRc, timer), n);
      Turn(es);
    }

    /** The status of the first path on the closed list. */
    method FirstStatus() returns (rc: int)
      requires Inv(Model()) && active.None? && openedPaths == []
      ensures forall n: nat :: n > 0 ==> Done(rc) == OutcomeOf(Model(), n)
    {
      rc := ENODEV;
      if closedPaths != [] { rc := pathRc[closedPaths[0]]; }
    }

    /** sandev_reopen() */
    method Reopen(openRc: nat -> int, env: Env, turns: nat) returns (r: Outcome, ghost start: San, n: nat)
      requires Inv(Model()) && Behaves(env)
      modifies this
      ensures Inv(Model()) && pathRc.Keys == old(pathRc.Keys)
      ensures Reopened(old(Model()), Model(), openRc, env, turns, r, start, n)
      ensures r.Done? && start.closedPaths == [] ==>
              (r.rc == 0 <==> active.Some? || !NoSurplus(start, Events(start, env, n)))
      ensures r.Done? && (forall s, k :: OneEach(env, s, k)) ==> (r.rc == 0 <==> active.Some?)
      ensures r.Done? && r.rc != 0 ==> AllClosed(Model())
    {
      ghost var s := Model();
      Restart(ECONNRESET);
      var rc := OpenAll(openRc);
      start, n := Model(), 0;
      if rc != 0 {
        Restart(rc);
        r := Done(rc);
      } else {
        r, n := Wait(env, turns);
        if r.Done? && active.None? {
          Restart(r.rc);
        }
      }
      assert Reopened(s, Model(), openRc, env, turns, r, start, n);
      if r.Done? { ReopenedIff(s, Model(), openRc, env, turns, r, start, n); }
    }
  }

  const TWO_PATHS := San([0, 1], [], None, {0, 1}, map[0 := EINPROGRESS, 1 := EINPROGRESS], 0, false)

  lemma FirstActive()
    ensures Inv(TWO_PATHS)
    ensures Apply(TWO_PATHS, Window(0, true)) ==
            San([0, 1], [], Some(0), {0, 1}, map[0 := 0, 1 := EINPROGRESS], 0, false)
  {
  }

  lemma SecondSurplus()
    ensures Apply(San([0, 1], [], Some(0), {0, 1}, map[0 := 0, 1 := EINPROGRESS], 0, false), Window(1, true)) ==
            San([0], [1], Some(0), {0}, map[0 := 0, 1 := 0], 0, false)
  {
  }

  lemma FirstFails()
    ensures Apply(San([0], [1], Some(0), {0}, map[0 := 0, 1 := 0], 0, false), BlockClosed(0, ECONNRESET)) ==
            San([], [1, 0], None, {}, map[0 := ECONNRESET, 1 := 0], ECONNRESET, false)
  {
  }

  /** Two paths: the first becomes active, the second is surplus, and then the first fails, all in one turn. */
  lemma SuccessWithoutPath()
    ensures var es := [Window(0, true), Window(1, true), BlockClosed(0, ECONNRESET)];
            !NoSurplus(TWO_PATHS, es) && ApplyAll(TWO_PATHS, es) ==
              San([], [1, 0], None, {}, map[0 := ECONNRESET, 1 := 0], ECONNRESET, false)
  {
    var e0, e1, e2 := Window(0, true), Window(1, true), BlockClosed(0, ECONNRESET);
    FirstActive();
    SecondSurplus();
    FirstFails();
    var es := [e0, e1, e2];
    assert es[1..] == [e1, e2] && [e1, e2][1..] == [e2] && [e2][1..] == [];
    var a := Apply(TWO_PATHS, e0);
    var b := Apply(a, e1);
    assert ApplyAll(b, [e2]) == Apply(b, e2) && ApplyAll(a, [e1, e2]) == ApplyAll(b, [e2]);
    assert FirstExit(a, [e1, e2]) == Some(e1) && FirstExit(TWO_PATHS, es) == Some(e1);
  }

  // ---------------------------------------------------------------------
  // Fragments
  // ---------------------------------------------------------------------

  const UINT := 0x1_0000_0000

  /** A command for `count` blocks at `lba`, with data at an offset in the buffer. */
  datatype Fragment = Fragment(lba: nat, count: nat, offset: nat)

  /** Fragments that follow on from each other without gaps, in the disk and in the buffer. */
  predicate Tiles(fs: seq<Fragment>, lba: nat, count: nat, offset: nat, blksize: nat)
    decreases |fs|
  {
    if fs == [] then count == 0
    else
      && fs[0].lba == lba && fs[0].offset == offset && 0 < fs[0].count <= count
      && Tiles(fs[1..], lba + fs[0].count, count - fs[0].count, offset + blksize * fs[0].count, blksize)
  }

  lemma {:induction false} TilesMore(fs: seq<Fragment>, lba: nat, count: nat, offset: nat, blksize: nat, f: Fragment)
    requires Tiles(fs, lba, count, offset, blksize)
    requires f.lba == lba + count && f.offset == offset + blksize * count && f.count > 0
    ensures Tiles(fs + [f], lba, count + f.count, offset, blksize)
    decreases |fs|
  {
    if fs == [] {
      assert [f][1..] == [];
    } else {
      var c := fs[0].count;
      assert (fs + [f])[1..] == fs[1..] + [f];
      Distribute(blksize, c, count - c);
      TilesMore(fs[1..], lba + c, count - c, offset + blksize * c, blksize, f);
    }
  }

  lemma Distribute(k: nat, a: nat, b: nat)
    ensures k * (a + b) == k * a + k * b
  {
  }

  /** Left shift of an unsigned int. */
  function ShiftUint(x: nat, shift: nat): nat {
    x * Pow2(shift) % UINT
  }

  /**
  sandev_rw(): the commands issued are consecutive fragments of at most `maxCount` blocks.  Without errors they
  cover the (32-bit) number of underlying blocks exactly.
  */
  method ReadWrite(lba: nat, count: nat, shift: nat, blksize: nat, maxCount: nat, status: nat -> int) 
    returns (rc: int, issued: seq<Fragment>, ghost done: nat)
    requires maxCount > 0
    ensures forall f :: f in issued ==> f.count <= maxCount
    ensures Tiles(issued, lba * Pow2(shift), done, 0, blksize) && done <= ShiftUint(count, shift)
    ensures rc == 0 ==> done == ShiftUint(count, shift)
    ensures rc == 0 <==> forall k :: 0 <= k < |issued| ==> status(k) == 0
  {
    var at, c := lba * Pow2(shift), maxCount;
    var remaining, offset := ShiftUint(count, shift), 0;
    issued, rc, done := [], 0, 0;
    while remaining > 0
      invariant 0 <= remaining && done + remaining == ShiftUint(count, shift) && at == lba * Pow2(shift) + done &&
                offset == blksize * done
      invariant rc == 0 && 0 < c <= maxCount && Tiles(issued, lba * Pow2(shift), done, 0, blksize)
      invariant forall f :: f in issued ==> f.count <= maxCount
      invariant forall k :: 0 <= k < |issued| ==> status(k) == 0
    {
      if c > remaining { c := remaining; }
      var f := Fragment(at, c, offset);
      TilesMore(issued, lba * Pow2(shift), done, 0, blksize, f);
      rc := status(|issued|);
      issued := issued + [f];
      Distribute(blksize, done, c);
      at, remaining, offset, done := at + c, remaining - c, offset + blksize * c, done + c;
      if rc != 0 {
        assert status(|issued| - 1) != 0;
        return;
      }
    }
  }

  /** The whole range is covered exactly when the number of blocks fits in an unsigned int. */
  lemma CoversIff(count: nat, shift: nat)
    ensures ShiftUint(count, shift) == count * Pow2(shift) <==> count * Pow2(shift) < UINT
  {
  }

}
