/** The state of a multipath SAN device and the events that change it. */
module SanModel {
  import opened Options
  import opened Lists

  const ENOTCONN := -107
  const ECONNRESET := -104
  const EINPROGRESS := -115
  const ENODEV := -19

  /** Paths are numbered; `queued` are those whose process is in the run queue. */
  datatype San = San(
    openedPaths: seq<nat>,
    closedPaths: seq<nat>,
    active: Option<nat>,
    queued: set<nat>,
    rc: map<nat, int>,
    commandRc: int,
    timer: bool)

  /** Each path is in exactly one of the lists, once; processes and the active path belong to opened paths. */
  ghost predicate Inv(s: San) {
    && Distinct(s.openedPaths) && Distinct(s.closedPaths)
    && (forall p :: p in s.rc <==> p in s.openedPaths || p in s.closedPaths)
    && (forall p :: p in s.openedPaths ==> p !in s.closedPaths)
    && (forall p :: p in s.queued ==> p in s.openedPaths)
    && (s.active.Some? ==> s.active.value in s.openedPaths)
  }

  /** sandev_command_close() */
  function CommandClose(s: San, rc: int): San {
    s.(timer := false, commandRc := rc)
  }

  /** sanpath_close() */
  function ClosePath(s: San, p: nat, rc: int): San {
    var t := s.(rc := s.rc[p := rc], openedPaths := Remove(s.openedPaths, p),
      closedPaths := Remove(s.closedPaths, p) + [p], queued := s.queued - {p});
    if s.active == Some(p) then CommandClose(t.(active := None), rc) else t
  }

  /** sanpath_open(), once the URI has been opened. */
  function OpenPath(s: San, p: nat): San {
    s.(queued := s.queued + {p}, closedPaths := Remove(s.closedPaths, p),
      openedPaths := Remove(s.openedPaths, p) + [p], rc := s.rc[p := EINPROGRESS])
  }

  /** sanpath_step() */
  function StepPath(s: San, p: nat, ready: bool): San {
    if s.active == Some(p) || !ready then s
    else
      var t := s.(rc := s.rc[p := 0]);
      if s.active.None? then t.(active := Some(p)) else ClosePath(t, p, 0)
  }

  /**
  The process of a path runs, its window changes, its block interface is closed, or the command is closed or times
  out.
  */
  datatype Event =
    | Run(path: nat, ready: bool)
    | Window(path: nat, ready: bool)
    | BlockClosed(path: nat, rc: int)
    | CommandDone(rc: int)

  function Apply(s: San, e: Event): San {
    match e
    case Run(p, ready) => StepPath(s.(queued := s.queued - {p}), p, ready)
    case Window(p, ready) => StepPath(s, p, ready)
    case BlockClosed(p, rc) => ClosePath(s, p, if rc == 0 then ENOTCONN else rc)
    case CommandDone(rc) => CommandClose(s, rc)
  }

  /** A process runs only while it is queued, and only an opened path has a peer that events could come from. */
  predicate Legal(s: San, e: Event) {
    match e
    case Run(p, _) => p in s.queued
    case Window(p, _) => p in s.openedPaths
    case BlockClosed(p, _) => p in s.openedPaths
    case CommandDone(_) => true
  }

  function ApplyAll(s: San, es: seq<Event>): San
    decreases |es|
  {
    if es == [] then s else ApplyAll(Apply(s, es[0]), es[1..])
  }

  predicate LegalRun(s: San, es: seq<Event>)
    decreases |es|
  {
    es == [] || (Legal(s, es[0]) && LegalRun(Apply(s, es[0]), es[1..]))
  }

  lemma CloseInv(s: San, p: nat, rc: int)
    requires Inv(s) && p in s.rc
    ensures Inv(ClosePath(s, p, rc))
    ensures var t := ClosePath(s, p, rc);
            && t.rc.Keys == s.rc.Keys && (forall q :: q in t.openedPaths <==> q in s.openedPaths && q != p)
            && |t.openedPaths| == |s.openedPaths| - (if p in s.openedPaths then 1 else 0)
  {
    RemoveDistinct(s.openedPaths, p);
    RemoveDistinct(s.closedPaths, p);
    AppendDistinct(Remove(s.closedPaths, p), p);
  }

  lemma OpenInv(s: San, p: nat)
    requires Inv(s) && p in s.rc
    ensures Inv(OpenPath(s, p)) && OpenPath(s, p).rc.Keys == s.rc.Keys
  {
    RemoveDistinct(s.openedPaths, p);
    RemoveDistinct(s.closedPaths, p);
    AppendDistinct(Remove(s.openedPaths, p), p);
  }

  lemma StepInv(s: San, p: nat, ready: bool)
    requires Inv(s) && p in s.openedPaths
    ensures Inv(StepPath(s, p, ready)) && StepPath(s, p, ready).rc.Keys == s.rc.Keys
  {
    if s.active != Some(p) && ready && s.active.Some? {
      CloseInv(s.(rc := s.rc[p := 0]), p, 0);
    }
  }

  /** A step keeps the invariant exactly when it does not make a closed path the active one. */
  lemma StepInvIff(s: San, p: nat, ready: bool)
    requires Inv(s) && p in s.rc
    ensures Inv(StepPath(s, p, ready)) <==> p in s.openedPaths || !ready || s.active.Some?
  {
    if p in s.openedPaths {
      StepInv(s, p, ready);
    } else if ready && s.active.Some? {
      CloseInv(s.(rc := s.rc[p := 0]), p, 0);
    }
  }

  lemma ApplyInv(s: San, e: Event)
    requires Inv(s) && Legal(s, e)
    ensures Inv(Apply(s, e)) && Apply(s, e).rc.Keys == s.rc.Keys
  {
    match e
    case Run(p, ready) => StepInv(s.(queued := s.queued - {p}), p, ready);
    case Window(p, ready) => StepInv(s, p, ready);
    case BlockClosed(p, rc) => CloseInv(s, p, if rc == 0 then ENOTCONN else rc);
    case CommandDone(rc) =>
  }

  /** Every reachable state is well-formed. */
  lemma {:induction false} RunInv(s: San, es: seq<Event>)
    requires Inv(s) && LegalRun(s, es)
    ensures Inv(ApplyAll(s, es)) && ApplyAll(s, es).rc.Keys == s.rc.Keys
    decreases |es|
  {
    if es != [] {
      ApplyInv(s, es[0]);
      RunInv(Apply(s, es[0]), es[1..]);
    }
  }

  lemma {:induction false} ApplyConcat(s: San, es: seq<Event>, fs: seq<Event>)
    ensures ApplyAll(s, es + fs) == ApplyAll(ApplyAll(s, es), fs)
    ensures LegalRun(s, es + fs) <==> LegalRun(s, es) && LegalRun(ApplyAll(s, es), fs)
    decreases |es|
  {
    if es == [] {
      assert es + fs == fs;
    } else {
      assert (es + fs)[1..] == es[1..] + fs;
      ApplyConcat(Apply(s, es[0]), es[1..], fs);
    }
  }

  // ---------------------------------------------------------------------
  // The first path to be closed
  // ---------------------------------------------------------------------

  /** A path leaves the list of opened paths. */
  predicate Exits(s: San, e: Event) {
    |Apply(s, e).openedPaths| < |s.openedPaths|
  }

  /** The first event that makes a path leave the list. */
  function FirstExit(s: San, es: seq<Event>): Option<Event>
    decreases |es|
  {
    if es == [] then None else if Exits(s, es[0]) then Some(es[0]) else FirstExit(Apply(s, es[0]), es[1..])
  }

  /** Events on other paths leave the head of the closed list and its status alone. */
  predicate HeadKept(s: San, t: San) {
    s.closedPaths != [] && t.closedPaths != [] && t.closedPaths[0] == s.closedPaths[0] && s.closedPaths[0] in s.rc &&
      s.closedPaths[0] in t.rc && t.rc[s.closedPaths[0]] == s.rc[s.closedPaths[0]]
  }

  lemma CloseOpened(s: San, p: nat, rc: int)
    requires Inv(s) && p in s.openedPaths
    ensures ClosePath(s, p, rc).closedPaths == s.closedPaths + [p] && ClosePath(s, p, rc).rc[p] == rc &&
            |ClosePath(s, p, rc).openedPaths| < |s.openedPaths|
    ensures s.closedPaths != [] ==> HeadKept(s, ClosePath(s, p, rc))
  {
    RemoveAbsent(s.closedPaths, p);
    CloseInv(s, p, rc);
  }

  /** What one event does to the head of the closed list. */
  lemma ApplyHead(s: San, e: Event)
    requires Inv(s) && Legal(s, e)
    ensures s.closedPaths != [] ==> HeadKept(s, Apply(s, e))
    ensures s.closedPaths == [] ==> (Exits(s, e) <==> Apply(s, e).closedPaths != [])
    ensures s.closedPaths == [] && Exits(s, e) ==>
              var t := Apply(s, e);
              t.closedPaths[0] in t.rc && (t.rc[t.closedPaths[0]] == 0 <==> !e.BlockClosed?) &&
                (!e.BlockClosed? ==> s.active.Some?)
  {
    match e
    case Run(p, ready) => StepHead(s.(queued := s.queued - {p}), p, ready);
    case Window(p, ready) => StepHead(s, p, ready);
    case BlockClosed(p, rc) => CloseOpened(s, p, if rc == 0 then ENOTCONN else rc);
    case CommandDone(rc) =>
  }

  lemma StepHead(s: San, p: nat, ready: bool)
    requires Inv(s) && p in s.openedPaths
    ensures var t := StepPath(s, p, ready);
            && (s.closedPaths != [] ==> HeadKept(s, t))
            && (s.closedPaths == [] ==> (|t.openedPaths| < |s.openedPaths| <==> t.closedPaths != []))
            && (s.closedPaths == [] && t.closedPaths != [] ==>
              t.closedPaths[0] in t.rc && t.rc[t.closedPaths[0]] == 0 && s.active.Some?)
  {
    if s.active != Some(p) && ready && s.active.Some? {
      CloseOpened(s.(rc := s.rc[p := 0]), p, 0);
    }
  }

  /** After any events, the head of the closed list tells whether the first path to leave had failed. */
  lemma {:induction false} HeadTells(s: San, es: seq<Event>)
    requires Inv(s) && LegalRun(s, es) && s.closedPaths == []
    ensures var t := ApplyAll(s, es);
            && (t.closedPaths == [] <==> FirstExit(s, es).None?)
            && (t.closedPaths != [] ==>
                  && t.closedPaths[0] in t.rc
                  && (t.rc[t.closedPaths[0]] == 0 <==> !FirstExit(s, es).value.BlockClosed?))
    decreases |es|
  {
    if es != [] {
      var t := Apply(s, es[0]);
      ApplyHead(s, es[0]);
      ApplyInv(s, es[0]);
      if t.closedPaths == [] { HeadTells(t, es[1..]); } else { HeadStays(t, es[1..]); }
    }
  }

  lemma {:induction false} HeadStays(s: San, es: seq<Event>)
    requires Inv(s) && LegalRun(s, es) && s.closedPaths != []
    ensures HeadKept(s, ApplyAll(s, es))
    decreases |es|
  {
    if es != [] {
      ApplyHead(s, es[0]);
      ApplyInv(s, es[0]);
      HeadStays(Apply(s, es[0]), es[1..]);
    }
  }
}
