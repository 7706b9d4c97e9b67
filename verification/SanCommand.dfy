/** sanboot.c: a command on a SAN device, with reopening and retries. */
module SanCommand {
  import opened SanModel
  import opened SanDevice

  /**
  What an attempt meets with: the status of opening each path, the events while the device is reopened, the
  status of initiating the command, and the events until it completes.
  */
  datatype Surroundings = Surroundings(openRc: nat -> int, reopening: Env, initiate: int, running: Env)

  type World = nat -> Surroundings

  ghost predicate Behaved(w: World) {
    forall k: nat :: Behaves(w(k).reopening) && Behaves(w(k).running)
  }

  /** How an attempt ends, or that it has not ended within the turns given to it. */
  datatype Result = NotOpened(rc: int) | NotInitiated(rc: int) | Failed(rc: int) | Succeeded | Pending

  predicate Fails(e: Result) {
    !e.Succeeded? && !e.Pending?
  }

  /** The expiry timer has been started. */
  function Timed(s: San): San {
    s.(timer := true)
  }

  predicate TimerRuns(s: San, env: Env, k: nat) {
    After(s, env, k).timer
  }

  /** The timer ran in s, and n turns later, in t, it is stopped or the turns are used up. */
  ghost predicate Awaited(s: San, t: San, env: Env, turns: nat, n: nat) {
    n <= turns && t == After(s, env, n) && (t.timer ==> n == turns) && forall k :: 0 <= k < n ==> TimerRuns(s, env, k)
  }

  function ResultOf(t: San): Result {
    if t.timer then Pending else if t.commandRc != 0 then Failed(t.commandRc) else Succeeded
  }

  ghost predicate Ran(w: World, k: nat, turns: nat, s: San, t: San, e: Result) {
    if w(k).initiate != 0 then e == NotInitiated(w(k).initiate) && t == s
    else e == ResultOf(t) && exists n :: Awaited(Timed(s), t, w(k).running, turns, n)
  }

  /** The device was reopened from s to t, or the turns are used up. */
  ghost predicate ReopenedTo(w: World, k: nat, turns: nat, s: San, t: San, r: Outcome) {
    exists start, n :: Reopened(s, t, w(k).openRc, w(k).reopening, turns, r, start, n)
  }

  /** Attempt k from s to t: reopen the device if it has no active path, then initiate the command and wait for it. */
  ghost predicate Tried(w: World, k: nat, turns: nat, s: San, t: San, e: Result) {
    if s.active.Some? then Ran(w, k, turns, s, t, e)
    else exists u, r :: ReopenedTo(w, k, turns, s, u, r) && TriedAfter(w, k, turns, u, r, t, e)
  }

  ghost predicate TriedAfter(w: World, k: nat, turns: nat, u: San, r: Outcome, t: San, e: Result) {
    if r == Done(0) then Ran(w, k, turns, u, t, e)
    else t == u && e == if r.Waiting? then Pending else NotOpened(r.rc)
  }

  /** Failures that use up a retry: with several paths, opening them is retried indefinitely. */
  predicate Counts(paths: nat, e: Result) {
    match e
    case NotOpened(_) => paths <= 1
    case NotInitiated(_) => true
    case Failed(_) => true
    case Succeeded => false
    case Pending => false
  }

  function Failures(paths: nat, log: seq<Result>): nat {
    if log == [] then 0 else Failures(paths, log[..|log| - 1]) + if Counts(paths, log[|log| - 1]) then 1 else 0
  }

  lemma FailuresMore(paths: nat, log: seq<Result>, e: Result)
    ensures Failures(paths, log + [e]) == Failures(paths, log) + if Counts(paths, e) then 1 else 0
  {
    assert (log + [e])[..|log|] == log;
  }

  /** The attempts made so far, and the states between them. */
  ghost predicate History(w: World, turns: nat, states: seq<San>, log: seq<Result>) {
    |states| == |log| + 1 && forall k :: 0 <= k < |log| ==> Tried(w, k, turns, states[k], states[k + 1], log[k])
  }

  /** Every attempt but the last failed, and each was made while there were retries left. */
  ghost predicate Retrying(paths: nat, retries: nat, log: seq<Result>) {
    forall k :: 0 <= k < |log| ==> Failures(paths, log[..k]) <= retries && (k + 1 < |log| ==> Fails(log[k]))
  }

  lemma HistoryMore(w: World, turns: nat, states: seq<San>, log: seq<Result>, t: San, e: Result)
    requires History(w, turns, states, log) && Tried(w, |log|, turns, states[|log|], t, e)
    ensures History(w, turns, states + [t], log + [e])
  {
    var more, longer := states + [t], log + [e];
    forall k | 0 <= k < |longer| ensures Tried(w, k, turns, more[k], more[k + 1], longer[k]) {
      if k < |log| { assert more[k] == states[k] && more[k + 1] == states[k + 1] && longer[k] == log[k]; }
    }
  }

  lemma RetryingMore(paths: nat, retries: nat, log: seq<Result>, e: Result)
    requires Retrying(paths, retries, log) && Failures(paths, log) <= retries && (log != [] ==> Fails(log[|log| - 1]))
    ensures Retrying(paths, retries, log + [e])
  {
    var longer := log + [e];
    forall k | 0 <= k < |longer| ensures Failures(paths, longer[..k]) <= retries &&
      (k + 1 < |longer| ==> Fails(longer[k])) {
      assert longer[..k] == log[..k];
      if k == |log| { assert log[..k] == log; }
    }
  }

  /** With a single path, every failure counts. */
  lemma {:induction false} AllCount(paths: nat, log: seq<Result>)
    requires paths <= 1 && forall k :: 0 <= k < |log| ==> Fails(log[k])
    ensures Failures(paths, log) == |log|
  {
    if log != [] { AllCount(paths, log[..|log| - 1]); }
  }

  /** So there are at most `retries` + 1 attempts. */
  lemma SinglePathBound(paths: nat, retries: nat, log: seq<Result>)
    requires paths <= 1 && Retrying(paths, retries, log)
    ensures |log| <= retries + 1
  {
    if log != [] {
      var n := |log| - 1;
      forall k | 0 <= k < n ensures Fails(log[..n][k]) { assert log[..n][k] == log[k] && k + 1 < |log|; }
      AllCount(paths, log[..n]);
      assert Failures(paths, log[..n]) <= retries;
    }
  }

  /** The number of attempts that got as far as the command. */
  function Tries(log: seq<Result>): nat {
    if log == [] then 0
    else Tries(log[..|log| - 1]) + if log[|log| - 1].NotInitiated? || log[|log| - 1].Failed? then 1 else 0
  }

  /** With several paths those are the failures that count. */
  lemma {:induction false} FailuresAreTries(paths: nat, log: seq<Result>)
    requires paths >= 2
    ensures Failures(paths, log) == Tries(log)
  {
    if log != [] { FailuresAreTries(paths, log[..|log| - 1]); }
  }

  /** What has been used up of the retries: with one path, every attempt. */
  function Spent(paths: nat, log: seq<Result>): nat {
    if paths <= 1 then |log| else Tries(log)
  }

  /** No attempt is made once there are no retries left. */
  predicate Thrifty(paths: nat, retries: nat, log: seq<Result>) {
    forall k :: 0 <= k < |log| ==> Spent(paths, log[..k]) <= retries
  }

  lemma SpentIs(paths: nat, log: seq<Result>)
    requires forall k :: 0 <= k < |log| ==> Fails(log[k])
    ensures Failures(paths, log) == Spent(paths, log)
  {
    if paths <= 1 { AllCount(paths, log); } else { FailuresAreTries(paths, log); }
  }

  lemma RetryingThrifty(paths: nat, retries: nat, log: seq<Result>)
    requires Retrying(paths, retries, log)
    ensures Thrifty(paths, retries, log)
    ensures (log != [] ==> Fails(log[|log| - 1])) ==> Failures(paths, log) == Spent(paths, log)
  {
    forall k | 0 <= k < |log| ensures Spent(paths, log[..k]) <= retries {
      forall j | 0 <= j < k ensures Fails(log[..k][j]) { assert Failures(paths, log[..j]) <= retries && Fails(log[j]); }
      SpentIs(paths, log[..k]);
    }
    if log != [] ==> Fails(log[|log| - 1]) {
      forall j | 0 <= j < |log| ensures Fails(log[j]) { assert Failures(paths, log[..j]) <= retries; }
      SpentIs(paths, log);
    }
  }

  /**
  When the device gives up: with one path after `retries` + 1 attempts, and with several after as many that got as
  far as the command, of which the last attempt is one.  If several paths merely cannot be opened, it never does.
  */
  ghost predicate GivenUp(paths: nat, retries: nat, log: seq<Result>) {
    && log != []
    && if paths <= 1 then |log| == retries + 1
       else
         && Tries(log) == retries + 1 && (log[|log| - 1].NotInitiated? || log[|log| - 1].Failed?)
         && exists k :: 0 <= k < |log| && !log[k].NotOpened?
  }

  lemma GivesUp(paths: nat, retries: nat, log: seq<Result>)
    requires log != [] && Retrying(paths, retries, log) && Fails(log[|log| - 1]) && Failures(paths, log) == retries + 1
    ensures GivenUp(paths, retries, log)
  {
    var n := |log| - 1;
    assert Failures(paths, log[..n]) <= retries;
    if paths <= 1 {
      forall k | 0 <= k < |log| ensures Fails(log[k]) { assert k < n ==> Failures(paths, log[..k]) <= retries; }
      AllCount(paths, log);
    } else {
      FailuresAreTries(paths, log);
      FailuresAreTries(paths, log[..n]);
      assert !log[n].NotOpened?;
    }
  }

  lemma {:induction false} TimerStays(s: San, es: seq<Event>)
    requires !s.timer
    ensures !ApplyAll(s, es).timer
    decreases |es|
  {
    if es != [] { TimerStays(Apply(s, es[0]), es[1..]); }
  }

  lemma ReopenedIdle(s: San, t: San, openRc: nat -> int, env: Env, turns: nat, r: Outcome, start: San, n: nat)
    requires Reopened(s, t, openRc, env, turns, r, start, n)
    ensures !t.timer
  {
    TimerStays(start, Events(start, env, n));
  }

  /** With at most one event per turn, a command is only ever initiated on an active path. */
  lemma InitiatedActive(w: World, k: nat, turns: nat, s: San, t: San, e: Result)
    requires Tried(w, k, turns, s, t, e) && !e.NotOpened? && !e.Pending? && Behaved(w) &&
             forall u, n :: OneEach(w(k).reopening, u, n)
    ensures exists u: San :: u.active.Some? && Ran(w, k, turns, u, t, e)
  {
    if s.active.None? {
      var u, r :| ReopenedTo(w, k, turns, s, u, r) && TriedAfter(w, k, turns, u, r, t, e);
      var start, n :| Reopened(s, u, w(k).openRc, w(k).reopening, turns, r, start, n);
      assert Behaves(w(k).reopening);
      ReopenedIff(s, u, w(k).openRc, w(k).reopening, turns, r, start, n);
    }
  }

  /** Wait for the timer to stop. */
  method AwaitTimer(d: Device, env: Env, turns: nat) returns (n: nat)
    requires Inv(d.Model()) && Behaves(env)
    modifies d
    ensures Inv(d.Model()) && d.pathRc.Keys == old(d.pathRc.Keys)
    ensures Awaited(old(d.Model()), d.Model(), env, turns, n)
  {
    ghost var s := d.Model();
    n := 0;
    while d.timer && n < turns
      invariant n <= turns && d.Model() == After(s, env, n) && Inv(d.Model()) && d.pathRc.Keys == old(d.pathRc.Keys)
      invariant forall k :: 0 <= k < n ==> TimerRuns(s, env, k)
    {
      assert TimerRuns(s, env, n);
      d.TakeTurn(env, s, n);
      n := n + 1;
    }
  }

  /** Initiate the command, start the timer, and wait for it to stop. */
  method Execute(d: Device, w: World, k: nat, turns: nat) returns (e: Result)
    requires Inv(d.Model()) && Behaved(w) && !d.timer
    modifies d
    ensures Inv(d.Model()) && d.pathRc.Keys == old(d.pathRc.Keys) && (d.timer <==> e.Pending?)
    ensures Ran(w, k, turns, old(d.Model()), d.Model(), e) && (Fails(e) ==> e.rc != 0)
    ensures e.NotInitiated? <==> w(k).initiate != 0
    ensures (e.Succeeded? ==> d.commandRc == 0) && (e.Failed? ==> d.commandRc == e.rc) && !e.NotOpened?
  {
    ghost var s := d.Model();
    var rc := w(k).initiate;
    if rc != 0 { return NotInitiated(rc); }
    d.timer := true;
    assert d.Model() == Timed(s);
    var n := AwaitTimer(d, w(k).running, turns);
    e := if d.timer then Pending else if d.commandRc != 0 then Failed(d.commandRc) else Succeeded;
  }

  /** One turn of the retry loop. */
  method Attempt(d: Device, w: World, k: nat, turns: nat) returns (e: Result)
    requires Inv(d.Model()) && Behaved(w) && !d.timer
    modifies d
    ensures Inv(d.Model()) && d.pathRc.Keys == old(d.pathRc.Keys) && (d.timer ==> e.Pending?)
    ensures Tried(w, k, turns, old(d.Model()), d.Model(), e) && (Fails(e) ==> e.rc != 0)
    ensures (e.Succeeded? ==> d.commandRc == 0) && (e.Failed? ==> d.commandRc == e.rc)
  {
    ghost var s := d.Model();
    if d.active.Some? {
      e := Execute(d, w, k, turns);
    } else {
      assert Behaves(w(k).reopening);
      var r, n; ghost var start;
      r, start, n := d.Reopen(w(k).openRc, w(k).reopening, turns);
      ReopenedIdle(s, d.Model(), w(k).openRc, w(k).reopening, turns, r, start, n);
      ghost var u := d.Model();
      assert ReopenedTo(w, k, turns, s, u, r);
      if r != Done(0) {
        e := if r.Waiting? then Pending else NotOpened(r.rc);
      } else {
        e := Execute(d, w, k, turns);
      }
      assert TriedAfter(w, k, turns, u, r, d.Model(), e);
    }
  }

  /** Attempts since a state, up to the present one. */
  ghost predicate Story(w: World, turns: nat, paths: nat, retries: nat, states: seq<San>, log: seq<Result>,
                        start: San, now: San) {
    History(w, turns, states, log) && Retrying(paths, retries, log) && states[0] == start && states[|log|] == now
  }

  /** Another attempt is added to the story. */
  method TryAgain(d: Device, w: World, turns: nat, log: seq<Result>, ghost paths: nat, ghost retries: nat,
                  ghost states: seq<San>, ghost start: San)
    returns (e: Result, ghost states': seq<San>)
    requires Inv(d.Model()) && Behaved(w) && !d.timer && Story(w, turns, paths, retries, states, log, start, d.Model())
    requires Failures(paths, log) <= retries && (log != [] ==> Fails(log[|log| - 1]))
    modifies d
    ensures Inv(d.Model()) && d.pathRc.Keys == old(d.pathRc.Keys) && (d.timer ==> e.Pending?) &&
            (Fails(e) ==> e.rc != 0)
    ensures (e.Succeeded? ==> d.commandRc == 0) && (e.Failed? ==> d.commandRc == e.rc)
    ensures Story(w, turns, paths, retries, states', log + [e], start, d.Model())
    ensures Failures(paths, log + [e]) == Failures(paths, log) + if Counts(paths, e) then 1 else 0
  {
    e := Attempt(d, w, |log|, turns);
    HistoryMore(w, turns, states, log, d.Model(), e);
    RetryingMore(paths, retries, log, e);
    FailuresMore(paths, log, e);
    states' := states + [d.Model()];
  }

  /**
  sandev_command(): succeeds with the first attempt that does, and gives up with the status of the last one
  after `retries` + 1 failures that count.
  */
  method Command(d: Device, w: World, retries: nat, attempts: nat, turns: nat)
    returns (r: Outcome, log: seq<Result>, ghost states: seq<San>)
    requires Inv(d.Model()) && Behaved(w) && !d.timer
    modifies d
    ensures Inv(d.Model()) && d.pathRc.Keys == old(d.pathRc.Keys)
    ensures Story(w, turns, |old(d.pathRc)|, retries, states, log, old(d.Model()), d.Model())
    ensures r.Done? ==> !d.timer && log != []
    ensures r.Done? && r.rc == 0 ==> log[|log| - 1].Succeeded? && d.commandRc == 0
    ensures r.Done? && r.rc != 0 ==>
              Fails(log[|log| - 1]) && log[|log| - 1].rc == r.rc && GivenUp(|old(d.pathRc)|, retries, log)
    ensures r.Waiting? ==>
              || (log != [] && log[|log| - 1].Pending?)
              || (|log| >= attempts && Spent(|old(d.pathRc)|, log) <= retries)
    ensures Thrifty(|old(d.pathRc)|, retries, log)
  {
    var paths := |d.pathRc|;
    ghost var start := d.Model();
    log, states := [], [start];
    var failures := 0;
    while |log| < attempts
      invariant Inv(d.Model()) && d.pathRc.Keys == old(d.pathRc.Keys) && !d.timer
      invariant Story(w, turns, paths, retries, states, log, start, d.Model())
      invariant failures == Failures(paths, log) <= retries && (log != [] ==> Fails(log[|log| - 1]))
      decreases attempts - |log|
    {
      var e;
      e, states := TryAgain(d, w, turns, log, paths, retries, states, start);
      log := log + [e];
      RetryingThrifty(paths, retries, log);
      if e.Pending? { return Waiting, log, states; }
      if e.Succeeded? { return Done(0), log, states; }
      if Counts(paths, e) { failures := failures + 1; }
      if failures > retries {
        GivesUp(paths, retries, log);
        return Done(e.rc), log, states;
      }
    }
    RetryingThrifty(paths, retries, log);
    r := Waiting;
  }
}
