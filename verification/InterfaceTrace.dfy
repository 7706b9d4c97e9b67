/** What closing an interface must do: which interface is told, and what its close handler does. */
module InterfaceTrace {
  import opened InterfaceModel

  /** Interfaces whose current descriptor has a close operation. */
  function CloseOps(n: Net, nullified: set<Intf>): set<Intf> {
    {NULL} + nullified + set i | i in n.close && n.close[i].Some?
  }

  /** The interface that takes the close operation, looked up from a destination. */
  ghost predicate Found(n: Net, w: Snap, start: Intf, d: Intf) {
    && (exists path :: PassPath(n, w.dest, w.nullified, CloseOps(n, w.nullified), start, path, d))
    && (d in CloseOps(n, w.nullified) || PassThru(n, w.nullified, d).None?)
  }

  /** The null interface and those with the null descriptor ignore a close. */
  predicate Deaf(w: Snap, d: Intf) {
    d == NULL || d in w.nullified
  }

  function Detached(w: Snap, i: Intf): Snap {
    w.(dest := w.dest[i := NULL], nullified := w.nullified + {i})
  }

  function Members(list: seq<Intf>): set<Intf> {
    set k | 0 <= k < |list| :: list[k]
  }

  function Nullified(w: Snap, list: seq<Intf>): Snap {
    w.(nullified := w.nullified + Members(list))
  }

  function Reinits(list: seq<Intf>): seq<Entry> {
    seq(|list|, k requires 0 <= k < |list| => Reinit(list[k]))
  }

  function Reinitialised(w: Snap, list: seq<Intf>): Snap {
    w.(nullified := w.nullified - Members(list), log := w.log + Reinits(list))
  }

  function Noticed(w: Snap, d: Intf, rc: int): Snap {
    w.(log := w.log + [Notice(d, rc)])
  }

  lemma ReinitNext(w: Snap, list: seq<Intf>, k: nat)
    requires k < |list|
    ensures var v, v' := Reinitialised(w, list[..k]), Reinitialised(w, list[..k + 1]);
            v' == v.(nullified := v.nullified - {list[k]}, log := v.log + [Reinit(list[k])])
  {
    assert list[..k + 1] == list[..k] + [list[k]];
    assert Members(list[..k + 1]) == Members(list[..k]) + {list[k]};
    assert Reinits(list[..k + 1]) == Reinits(list[..k]) + [Reinit(list[k])];
  }

  /** The number of notices in a log. */
  function Notices(log: seq<Entry>): nat {
    if log == [] then 0 else Notices(log[..|log| - 1]) + if log[|log| - 1].Notice? then 1 else 0
  }

  lemma NoticesMore(log: seq<Entry>, e: Entry)
    ensures Notices(log + [e]) == Notices(log) + if e.Notice? then 1 else 0
  {
    assert (log + [e])[..|log|] == log;
  }

  /** Some interfaces have been unplugged. */
  predicate Shrunk(w: Snap, v: Snap) {
    OnlyUnplugs(w.dest, v.dest) && |Plugged(v.dest)| <= |Plugged(w.dest)|
  }

  // ---------------------------------------------------------------------
  // What a close leads to: each predicate relates the state before to the state after
  // ---------------------------------------------------------------------

  /** intf_close(), on behalf of an interface plugged into `start`. */
  ghost predicate Informed(n: Net, start: Intf, rc: int, w: Snap, w': Snap)
    decreases |Plugged(w.dest)|, if start == NULL then 0 else 6
  {
    if start == NULL then w' == w else exists d :: Found(n, w, start, d) && Served(n, d, rc, w, w')
  }

  /** The close operation of d, or its default, which is to restart it. */
  ghost predicate Served(n: Net, d: Intf, rc: int, w: Snap, w': Snap)
    decreases |Plugged(w.dest)|, 5
  {
    if Deaf(w, d) then w' == w
    else
      var v := Noticed(w, d, rc);
      if d in n.close && n.close[d].Some? then DidRest(n, n.close[d].value, v, 0, v, w')
        else DidRestart(n, d, rc, v, w')
  }

  /** What a handler does after k actions, until it returns. */
  ghost predicate DidRest(n: Net, h: Handler, entry: Snap, k: nat, w: Snap, w': Snap)
    decreases |Plugged(w.dest)|, 4, h.limit(entry) - k
  {
    if k >= h.limit(entry) then w' == w
    else
      match h.next(entry, k, w)
      case Return(m) => w' == w.(memory := m)
      case Act(m, action) =>
        exists v :: Shrunk(w, v) && Did(n, action, w.(memory := m), v) && DidRest(n, h, entry, k + 1, v, w')
  }

  ghost predicate Did(n: Net, action: Action, w: Snap, w': Snap)
    decreases |Plugged(w.dest)|, 3
  {
    match action
    case Shutdown(i, rc) => DidShutdown(n, i, rc, w, w')
    case Restart(i, rc) => DidRestart(n, i, rc, w, w')
    case ShutdownAll(list, rc) => DidAll(n, list, rc, Nullified(w, list), w')
    case RestartAll(list, rc) => DidRestartAll(n, list, rc, w, w')
  }

  ghost predicate DidRestartAll(n: Net, list: seq<Intf>, rc: int, w: Snap, w': Snap)
    decreases |Plugged(w.dest)|, 2, |list| + 1
  {
    exists v :: DidAll(n, list, rc, Nullified(w, list), v) && w' == Reinitialised(v, list)
  }

  ghost predicate DidAll(n: Net, list: seq<Intf>, rc: int, w: Snap, w': Snap)
    decreases |Plugged(w.dest)|, 2, |list|
  {
    if list == [] then w' == w
    else exists v :: Shrunk(w, v) && DidShutdown(n, list[0], rc, w, v) && DidAll(n, list[1..], rc, v, w')
  }

  ghost predicate DidRestart(n: Net, i: Intf, rc: int, w: Snap, w': Snap)
    decreases |Plugged(w.dest)|, 2, 0
  {
    exists v :: DidShutdown(n, i, rc, w, v) && w' == Reinitialised(v, [i])
  }

  /** The interface is blocked and unplugged, and then its former destination is told. */
  ghost predicate DidShutdown(n: Net, i: Intf, rc: int, w: Snap, w': Snap)
    decreases |Plugged(w.dest)|, 1
  {
    i in w.dest && (PluggedUnplug(w.dest, i); Informed(n, w.dest[i], rc, Detached(w, i), w'))
  }

  // ---------------------------------------------------------------------
  // A lookup has one outcome
  // ---------------------------------------------------------------------

  /** Paths of lookups agree as far as the shorter one goes. */
  lemma {:induction false} PathsAgree(n: Net, w: Snap, ops: set<Intf>, start: Intf, p: seq<Intf>, d: Intf,
                                      q: seq<Intf>, e: Intf, k: nat)
    requires PassPath(n, w.dest, w.nullified, ops, start, p, d) && PassPath(n, w.dest, w.nullified, ops, start, q, e)
    requires k < |p| && k < |q|
    ensures p[k] == q[k]
  {
    if k > 0 {
      PathsAgree(n, w, ops, start, p, d, q, e, k - 1);
      assert PassStep(n, w.dest, w.nullified, ops, p[k - 1], p[k - 1 + 1]);
      assert PassStep(n, w.dest, w.nullified, ops, q[k - 1], q[k - 1 + 1]);
    }
  }

  lemma GoesOn(n: Net, w: Snap, ops: set<Intf>, start: Intf, q: seq<Intf>, e: Intf, k: nat)
    requires PassPath(n, w.dest, w.nullified, ops, start, q, e) && k < |q|
    ensures k + 1 < |q| ==> q[k] !in ops && PassThru(n, w.nullified, q[k]).Some?
  {
    if k + 1 < |q| { assert PassStep(n, w.dest, w.nullified, ops, q[k], q[k + 1]); }
  }

  /** A lookup cannot go on from where it may stop. */
  lemma StopsAt(n: Net, w: Snap, ops: set<Intf>, start: Intf, p: seq<Intf>, d: Intf, q: seq<Intf>, e: Intf)
    requires PassPath(n, w.dest, w.nullified, ops, start, p, d) && PassPath(n, w.dest, w.nullified, ops, start, q, e)
    requires |p| <= |q| && (d in ops || PassThru(n, w.nullified, d).None?)
    ensures d == e
  {
    PathsAgree(n, w, ops, start, p, d, q, e, |p| - 1);
    GoesOn(n, w, ops, start, q, e, |p| - 1);
  }

  /** Only one interface can be found from a destination. */
  lemma FoundUnique(n: Net, w: Snap, start: Intf, d: Intf, e: Intf)
    requires Found(n, w, start, d) && Found(n, w, start, e)
    ensures d == e
  {
    var ops := CloseOps(n, w.nullified);
    var p :| PassPath(n, w.dest, w.nullified, ops, start, p, d);
    var q :| PassPath(n, w.dest, w.nullified, ops, start, q, e);
    if |p| <= |q| { StopsAt(n, w, ops, start, p, d, q, e); } else { StopsAt(n, w, ops, start, q, e, p, d); }
  }
}
