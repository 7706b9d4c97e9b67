/** What every close cascade keeps to, whatever the handlers decide. */
module InterfaceLaws {
  import opened Options
  import opened InterfaceModel
  import opened InterfaceTrace

  // ---------------------------------------------------------------------
  // Laws are proved of single steps
  // ---------------------------------------------------------------------

  /** A relation between states before and after a cascade, and one for what happens while a handler of d runs. */
  datatype Law = Law(r: (Snap, Snap) -> bool, q: (Intf, Snap, Snap) -> bool)

  ghost predicate Steps(l: Law) {
    && (forall w :: l.r(w, w)) && (forall u, v, w :: l.r(u, v) && l.r(v, w) ==> l.r(u, w))
    && (forall d, u, v :: l.r(u, v) ==> l.q(d, u, v))
    && (forall d, u, v, w :: l.q(d, u, v) && l.q(d, v, w) ==> l.q(d, u, w))
  }

  ghost predicate Quiet(l: Law) {
    && (forall w: Snap, i :: i in w.dest ==> l.r(w, Detached(w, i)))
    && (forall w, list :: l.r(w, Nullified(w, list)))
    && (forall w: Snap, m :: l.r(w, w.(memory := m)))
  }

  /** Only handlers reinitialise, and only interfaces of their own object; they run after a notice. */
  ghost predicate Loud(n: Net, l: Law) {
    && (forall d, w, list :: n.OwnAll(d, list) ==> l.q(d, w, Reinitialised(w, list)))
    && (forall w, d, rc, w' :: !Deaf(w, d) && l.q(d, Noticed(w, d, rc), w') ==> l.r(w, w'))
  }

  ghost predicate Keeps(n: Net, l: Law) {
    Steps(l) && Quiet(l) && Loud(n, l)
  }

  /** States of the interfaces of a net. */
  predicate Of(n: Net, w: Snap) {
    w.dest.Keys == n.owner.Keys
  }

  lemma {:induction false} InformedLaw(n: Net, l: Law, start: Intf, rc: int, w: Snap, w': Snap)
    requires n.Valid() && Of(n, w) && Keeps(n, l) && Informed(n, start, rc, w, w')
    ensures l.r(w, w') && Of(n, w')
    decreases |Plugged(w.dest)|, if start == NULL then 0 else 6
  {
    if start != NULL {
      var d :| Found(n, w, start, d) && Served(n, d, rc, w, w');
      ServedLaw(n, l, d, rc, w, w');
    }
  }

  lemma {:induction false} ServedLaw(n: Net, l: Law, d: Intf, rc: int, w: Snap, w': Snap)
    requires n.Valid() && Of(n, w) && Keeps(n, l) && Served(n, d, rc, w, w')
    ensures l.r(w, w') && Of(n, w')
    decreases |Plugged(w.dest)|, 5
  {
    if !Deaf(w, d) {
      var v := Noticed(w, d, rc);
      if d in n.close && n.close[d].Some? {
        RestLaw(n, l, d, n.close[d].value, v, 0, v, w');
      } else {
        RestartLaw(n, l, d, d, rc, v, w');
      }
    }
  }

  lemma {:induction false} RestLaw(n: Net, l: Law, d: Intf, h: Handler, entry: Snap, k: nat, w: Snap, w': Snap)
    requires n.Valid() && Of(n, w) && Keeps(n, l) && n.OwnHandler(d, h) && DidRest(n, h, entry, k, w, w')
    ensures l.q(d, w, w') && Of(n, w')
    decreases |Plugged(w.dest)|, 4, h.limit(entry) - k
  {
    if k >= h.limit(entry) {
      assert l.r(w, w);
    } else {
      var c := h.next(entry, k, w);
      var u := w.(memory := c.memory);
      assert l.r(w, u) && n.OwnChoice(d, c);
      if c.Act? {
        var v :| Shrunk(w, v) && Did(n, c.action, u, v) && DidRest(n, h, entry, k + 1, v, w');
        DidLaw(n, l, d, c.action, u, v);
        RestLaw(n, l, d, h, entry, k + 1, v, w');
      }
    }
  }

  lemma {:induction false} DidLaw(n: Net, l: Law, d: Intf, action: Action, w: Snap, w': Snap)
    requires n.Valid() && Of(n, w) && Keeps(n, l) && n.OwnAction(d, action) && Did(n, action, w, w')
    ensures l.q(d, w, w') && Of(n, w')
    decreases |Plugged(w.dest)|, 3
  {
    match action
    case Shutdown(i, rc) => ShutdownLaw(n, l, i, rc, w, w');
    case Restart(i, rc) => RestartLaw(n, l, d, i, rc, w, w');
    case ShutdownAll(list, rc) =>
      assert l.r(w, Nullified(w, list));
      AllLaw(n, l, list, rc, Nullified(w, list), w');
    case RestartAll(list, rc) =>
      var v :| DidAll(n, list, rc, Nullified(w, list), v) && w' == Reinitialised(v, list);
      assert l.r(w, Nullified(w, list));
      AllLaw(n, l, list, rc, Nullified(w, list), v);
      assert l.q(d, w, v) && l.q(d, v, w');
  }

  lemma {:induction false} AllLaw(n: Net, l: Law, list: seq<Intf>, rc: int, w: Snap, w': Snap)
    requires n.Valid() && Of(n, w) && Keeps(n, l) && DidAll(n, list, rc, w, w')
    ensures l.r(w, w') && Of(n, w')
    decreases |Plugged(w.dest)|, 2, |list|
  {
    if list != [] {
      var v :| Shrunk(w, v) && DidShutdown(n, list[0], rc, w, v) && DidAll(n, list[1..], rc, v, w');
      ShutdownLaw(n, l, list[0], rc, w, v);
      AllLaw(n, l, list[1..], rc, v, w');
    }
  }

  lemma {:induction false} RestartLaw(n: Net, l: Law, d: Intf, i: Intf, rc: int, w: Snap, w': Snap)
    requires n.Valid() && Of(n, w) && Keeps(n, l) && (n.Own(d, i) || i == d) && DidRestart(n, i, rc, w, w')
    ensures l.q(d, w, w') && Of(n, w')
    decreases |Plugged(w.dest)|, 2, 0
  {
    var v :| DidShutdown(n, i, rc, w, v) && w' == Reinitialised(v, [i]);
    ShutdownLaw(n, l, i, rc, w, v);
    assert n.OwnAll(d, [i]);
    assert l.q(d, w, v) && l.q(d, v, w');
  }

  lemma {:induction false} ShutdownLaw(n: Net, l: Law, i: Intf, rc: int, w: Snap, w': Snap)
    requires n.Valid() && Of(n, w) && Keeps(n, l) && DidShutdown(n, i, rc, w, w')
    ensures l.r(w, w') && l.r(Detached(w, i), w') && Of(n, w')
    decreases |Plugged(w.dest)|, 1
  {
    PluggedUnplug(w.dest, i);
    assert l.r(w, Detached(w, i));
    InformedLaw(n, l, w.dest[i], rc, Detached(w, i), w');
  }

  // ---------------------------------------------------------------------
  // Plugs disappear, and the log grows
  // ---------------------------------------------------------------------

  predicate Later(w: Snap, w': Snap) {
    OnlyUnplugs(w.dest, w'.dest) && w.log <= w'.log
  }

  ghost function LaterLaw(): Law {
    Law((w, w') => Later(w, w'), (d, w, w') => Later(w, w'))
  }

  lemma LaterThen(u: Snap, v: Snap, w: Snap)
    requires Later(u, v) && Later(v, w)
    ensures Later(u, w)
  {
  }

  lemma LaterKeeps(n: Net)
    ensures Keeps(n, LaterLaw())
  {
    var l := LaterLaw();
    forall u, v, w | l.r(u, v) && l.r(v, w) ensures l.r(u, w) { LaterThen(u, v, w); }
    forall d, u, v, w | l.q(d, u, v) && l.q(d, v, w) ensures l.q(d, u, w) { LaterThen(u, v, w); }
    forall w, d, rc, w' | !Deaf(w, d) && l.q(d, Noticed(w, d, rc), w') ensures l.r(w, w') {
      LaterThen(w, Noticed(w, d, rc), w');
    }
  }

  predicate Loose(w: Snap, i: Intf) {
    i in w.dest && w.dest[i] == NULL
  }

  lemma ShutdownLater(n: Net, i: Intf, rc: int, w: Snap, w': Snap)
    requires n.Valid() && Of(n, w) && DidShutdown(n, i, rc, w, w')
    ensures Later(w, w') && Loose(w', i) && Of(n, w')
  {
    LaterKeeps(n);
    ShutdownLaw(n, LaterLaw(), i, rc, w, w');
    assert Later(Detached(w, i), w');
  }

  /** The interface found is told before anything else happens. */
  lemma InformedTold(n: Net, start: Intf, d: Intf, rc: int, w: Snap, w': Snap)
    requires n.Valid() && Of(n, w) && Informed(n, start, rc, w, w') && Found(n, w, start, d)
    ensures if Deaf(w, d) then w' == w else w.log + [Notice(d, rc)] <= w'.log
  {
    if start == NULL {
      FoundHere(n, w, start, d);
    } else {
      var e :| Found(n, w, start, e) && Served(n, e, rc, w, w');
      FoundUnique(n, w, start, d, e);
      if !Deaf(w, d) { NoticedLater(n, d, rc, w, w'); }
    }
  }

  lemma NoticedLater(n: Net, d: Intf, rc: int, w: Snap, w': Snap)
    requires n.Valid() && Of(n, w) && Served(n, d, rc, w, w') && !Deaf(w, d)
    ensures Later(Noticed(w, d, rc), w')
  {
    LaterKeeps(n);
    var v := Noticed(w, d, rc);
    if d in n.close && n.close[d].Some? {
      RestLaw(n, LaterLaw(), d, n.close[d].value, v, 0, v, w');
    } else {
      RestartLaw(n, LaterLaw(), d, d, rc, v, w');
    }
  }

  /** An interface that has been restarted is unplugged and takes operations. */
  lemma RestartOpen(n: Net, i: Intf, rc: int, w: Snap, w': Snap)
    requires n.Valid() && Of(n, w) && DidRestart(n, i, rc, w, w')
    ensures Later(w, w') && Loose(w', i) && i !in w'.nullified
  {
    var v :| DidShutdown(n, i, rc, w, v) && w' == Reinitialised(v, [i]);
    ShutdownLater(n, i, rc, w, v);
    assert [i][0] == i;
  }

  /** Every interface of a group that is shut down ends up unplugged. */
  lemma {:induction false} AllLater(n: Net, list: seq<Intf>, rc: int, w: Snap, w': Snap)
    requires n.Valid() && Of(n, w) && DidAll(n, list, rc, w, w')
    ensures Later(w, w') && Of(n, w') && forall i :: i in list ==> Loose(w', i)
    decreases |list|
  {
    if list != [] {
      var v :| Shrunk(w, v) && DidShutdown(n, list[0], rc, w, v) && DidAll(n, list[1..], rc, v, w');
      ShutdownLater(n, list[0], rc, w, v);
      AllLater(n, list[1..], rc, v, w');
      assert forall i :: i in list ==> i == list[0] || i in list[1..];
    }
  }

  // ---------------------------------------------------------------------
  // Blocked interfaces are not told
  // ---------------------------------------------------------------------

  /** i is not told of anything before it has been made to take operations again. */
  predicate Silent(i: Intf, log: seq<Entry>) {
    forall k :: 0 <= k < |log| && log[k].Notice? && log[k].intf == i ==> Reinit(i) in log[..k]
  }

  /** What has happened between two states. */
  function Since(w: Snap, w': Snap): seq<Entry>
    requires w.log <= w'.log
  {
    w'.log[|w.log|..]
  }

  /**
  An interface that was blocked has been silent, and still is blocked unless it was made to take operations again.
  */
  predicate Blocked(i: Intf, w: Snap, w': Snap) {
    && w.log <= w'.log
    && (i in w.nullified ==> Silent(i, Since(w, w')) && (i in w'.nullified || Reinit(i) in Since(w, w')))
  }

  lemma SilentThen(i: Intf, s: seq<Entry>, t: seq<Entry>)
    requires Silent(i, s) && (Silent(i, t) || Reinit(i) in s)
    ensures Silent(i, s + t)
  {
    forall k | 0 <= k < |s + t| && (s + t)[k].Notice? && (s + t)[k].intf == i ensures Reinit(i) in (s + t)[..k] {
      if k < |s| {
        assert (s + t)[..k] == s[..k];
      } else {
        assert (s + t)[..k] == s + t[..k - |s|];
      }
    }
  }

  lemma SinceThen(u: Snap, v: Snap, w: Snap)
    requires u.log <= v.log <= w.log
    ensures Since(u, w) == Since(u, v) + Since(v, w)
  {
  }

  lemma BlockedThen(i: Intf, u: Snap, v: Snap, w: Snap)
    requires Blocked(i, u, v) && Blocked(i, v, w)
    ensures Blocked(i, u, w)
  {
    SinceThen(u, v, w);
    if i in u.nullified { SilentThen(i, Since(u, v), Since(v, w)); }
  }

  ghost function BlockedLaw(i: Intf): Law {
    Law((w, w') => Blocked(i, w, w'), (d, w, w') => Blocked(i, w, w'))
  }

  lemma BlockedReinit(i: Intf, w: Snap, list: seq<Intf>)
    ensures Blocked(i, w, Reinitialised(w, list))
  {
    assert Since(w, Reinitialised(w, list)) == Reinits(list);
    if i in list {
      var k :| 0 <= k < |list| && list[k] == i;
      assert Reinits(list)[k] == Reinit(i);
    }
  }

  lemma BlockedNotice(i: Intf, w: Snap, d: Intf, rc: int, w': Snap)
    requires !Deaf(w, d) && Blocked(i, Noticed(w, d, rc), w')
    ensures Blocked(i, w, w')
  {
    assert Since(w, Noticed(w, d, rc)) == [Notice(d, rc)];
    BlockedThen(i, w, Noticed(w, d, rc), w');
  }

  lemma BlockedKeeps(n: Net, i: Intf)
    ensures Keeps(n, BlockedLaw(i))
  {
    var l := BlockedLaw(i);
    forall u, v, w | l.r(u, v) && l.r(v, w) ensures l.r(u, w) { BlockedThen(i, u, v, w); }
    forall d, u, v, w | l.q(d, u, v) && l.q(d, v, w) ensures l.q(d, u, w) { BlockedThen(i, u, v, w); }
    forall d, w, list | n.OwnAll(d, list) ensures l.q(d, w, Reinitialised(w, list)) { BlockedReinit(i, w, list); }
    forall w, d, rc, w' | !Deaf(w, d) && l.q(d, Noticed(w, d, rc), w') ensures l.r(w, w') {
      BlockedNotice(i, w, d, rc, w');
    }
  }

  /** intf_close() does not reach an interface that is blocked. */
  lemma ServedBlocked(n: Net, d: Intf, rc: int, w: Snap, w': Snap, i: Intf)
    requires n.Valid() && Of(n, w) && Served(n, d, rc, w, w')
    ensures Blocked(i, w, w')
  {
    BlockedKeeps(n, i);
    ServedLaw(n, BlockedLaw(i), d, rc, w, w');
  }

  /**
  After intf_shutdown() an interface is blocked, and it has been told of nothing since the shutdown began, unless a
  handler has restarted it.
  */
  lemma ShutdownBlocks(n: Net, i: Intf, rc: int, w: Snap, w': Snap)
    requires n.Valid() && Of(n, w) && DidShutdown(n, i, rc, w, w')
    ensures w.log <= w'.log && Silent(i, Since(w, w')) && (i in w'.nullified || Reinit(i) in Since(w, w'))
  {
    BlockedKeeps(n, i);
    ShutdownLaw(n, BlockedLaw(i), i, rc, w, w');
    assert Blocked(i, Detached(w, i), w');
  }

  /** While a group is being shut down none of it is told of anything, unless a handler has restarted it. */
  lemma GroupBlocks(n: Net, list: seq<Intf>, rc: int, w: Snap, w': Snap, i: Intf)
    requires n.Valid() && Of(n, w) && Did(n, ShutdownAll(list, rc), w, w') && i in list
    ensures w.log <= w'.log && Silent(i, Since(w, w')) && (i in w'.nullified || Reinit(i) in Since(w, w'))
  {
    BlockedKeeps(n, i);
    AllLaw(n, BlockedLaw(i), list, rc, Nullified(w, list), w');
    assert Blocked(i, Nullified(w, list), w');
  }

  /** So also while it is being restarted. */
  lemma GroupRestarts(n: Net, list: seq<Intf>, rc: int, w: Snap, w': Snap, i: Intf)
    requires n.Valid() && Of(n, w) && Did(n, RestartAll(list, rc), w, w') && i in list
    ensures w.log <= w'.log && Silent(i, Since(w, w')) && i !in w'.nullified && Reinit(i) in Since(w, w') &&
            Loose(w', i)
  {
    var v :| DidAll(n, list, rc, Nullified(w, list), v) && w' == Reinitialised(v, list);
    assert Did(n, ShutdownAll(list, rc), w, v);
    GroupBlocks(n, list, rc, w, v, i);
    AllLater(n, list, rc, Nullified(w, list), v);
    assert Since(w, w') == Since(w, v) + Reinits(list);
    SilentThen(i, Since(w, v), Reinits(list));
    var k :| 0 <= k < |list| && list[k] == i;
    assert Reinits(list)[k] == Reinit(i);
  }

  // ---------------------------------------------------------------------
  // Restarts are the work of handlers of the same object
  // ---------------------------------------------------------------------

  predicate Warned(n: Net, log: seq<Entry>, i: Intf) {
    exists j :: 0 <= j < |log| && log[j].Notice? && SameObject(n, log[j].intf, i)
  }

  predicate SameObject(n: Net, j: Intf, i: Intf) {
    n.Own(j, i) || j == i
  }

  /** Whenever an interface is made to take operations again, one of its object, or d, has been told of a close. */
  predicate Due(n: Net, busy: set<Intf>, w: Snap, w': Snap) {
    && w.log <= w'.log
    && forall k :: 0 <= k < |Since(w, w')| && Since(w, w')[k].Reinit? ==> Cause(n, busy, Since(w, w'), k)
  }

  predicate Cause(n: Net, busy: set<Intf>, log: seq<Entry>, k: nat)
    requires k < |log|
  {
    Warned(n, log[..k], log[k].intf) || exists d :: d in busy && SameObject(n, d, log[k].intf)
  }

  lemma DueThen(n: Net, busy: set<Intf>, u: Snap, v: Snap, w: Snap)
    requires Due(n, busy, u, v) && Due(n, busy, v, w)
    ensures Due(n, busy, u, w)
  {
    SinceThen(u, v, w);
    var s: seq<Entry>, t: seq<Entry> := Since(u, v), Since(v, w);
    forall k | 0 <= k < |s + t| && (s + t)[k].Reinit? ensures Cause(n, busy, s + t, k) {
      if k < |s| {
        assert (s + t)[..k] == s[..k] && Cause(n, busy, s, k);
      } else {
        assert (s + t)[..k] == s + t[..k - |s|] && Cause(n, busy, t, k - |s|);
        if Warned(n, t[..k - |s|], t[k - |s|].intf) {
          var j :| 0 <= j < k - |s| && t[j].Notice? && SameObject(n, t[j].intf, t[k - |s|].intf);
          assert (s + t)[..k][|s| + j] == t[j];
        }
      }
    }
  }

  lemma DueNotice(n: Net, w: Snap, d: Intf, rc: int, w': Snap)
    requires Due(n, {d}, Noticed(w, d, rc), w')
    ensures Due(n, {}, w, w')
  {
    var v := Noticed(w, d, rc);
    SinceThen(w, v, w');
    var s, t := Since(w, w'), Since(v, w');
    assert s == [Notice(d, rc)] + t;
    forall k | 0 <= k < |s| && s[k].Reinit? ensures Cause(n, {}, s, k) {
      assert Cause(n, {d}, t, k - 1) && s[..k][0] == Notice(d, rc);
      if Warned(n, t[..k - 1], t[k - 1].intf) {
        var j :| 0 <= j < k - 1 && t[j].Notice? && SameObject(n, t[j].intf, t[k - 1].intf);
        assert s[..k][j + 1] == t[j];
      }
    }
  }

  ghost function DueLaw(n: Net): Law {
    Law((w, w') => Due(n, {}, w, w'), (d: Intf, w, w') => Due(n, {d}, w, w'))
  }

  lemma DueReinit(n: Net, d: Intf, w: Snap, list: seq<Intf>)
    requires n.OwnAll(d, list)
    ensures Due(n, {d}, w, Reinitialised(w, list))
  {
    var log := Reinits(list);
    assert Since(w, Reinitialised(w, list)) == log;
    forall k | 0 <= k < |log| ensures Cause(n, {d}, log, k) { assert n.Own(d, list[k]); }
  }

  lemma DueMore(n: Net, d: Intf, w: Snap, w': Snap)
    requires Due(n, {}, w, w')
    ensures Due(n, {d}, w, w')
  {
    var log := Since(w, w');
    forall k | 0 <= k < |log| && log[k].Reinit? ensures Cause(n, {d}, log, k) { assert Cause(n, {}, log, k); }
  }

  lemma DueKeeps(n: Net)
    ensures Keeps(n, DueLaw(n))
  {
    var l := DueLaw(n);
    forall d, u, v | l.r(u, v) ensures l.q(d, u, v) { DueMore(n, d, u, v); }
    forall u, v, w | l.r(u, v) && l.r(v, w) ensures l.r(u, w) { DueThen(n, {}, u, v, w); }
    forall d, u, v, w | l.q(d, u, v) && l.q(d, v, w) ensures l.q(d, u, w) { DueThen(n, {d}, u, v, w); }
    forall d, w, list | n.OwnAll(d, list) ensures l.q(d, w, Reinitialised(w, list)) { DueReinit(n, d, w, list); }
    forall w, d, rc, w' | !Deaf(w, d) && l.q(d, Noticed(w, d, rc), w') ensures l.r(w, w') {
      DueNotice(n, w, d, rc, w');
    }
  }

  /** During intf_shutdown(), an interface is only made to take operations again after a notice to its object. */
  lemma ShutdownDue(n: Net, i: Intf, rc: int, w: Snap, w': Snap)
    requires n.Valid() && Of(n, w) && DidShutdown(n, i, rc, w, w')
    ensures Due(n, {}, w, w')
  {
    DueKeeps(n);
    ShutdownLaw(n, DueLaw(n), i, rc, w, w');
  }

  // ---------------------------------------------------------------------
  // Two interfaces plugged into each other
  // ---------------------------------------------------------------------

  /** A close handler that shuts down the interface, for the reason it was given. */
  function ShutSelf(i: Intf): Handler {
    Handler(_ => 1, (entry: Snap, k: nat, now: Snap) =>
      Act(now.memory, Shutdown(i, if entry.log != [] && entry.log[|entry.log| - 1].Notice?
                                  then entry.log[|entry.log| - 1].rc else 0)))
  }

  /** Only the other interface is told, once, and both end up blocked and unplugged. */
  lemma PairShutdown(n: Net, a: Intf, b: Intf, rc: int, w: Snap, w': Snap)
    requires a != b && a in w.dest && b in w.dest && w.dest[a] == b && w.dest[b] == a && NULL !in w.dest
    requires b !in w.nullified && b in n.close && n.close[b] == Some(ShutSelf(b))
    requires DidShutdown(n, a, rc, w, w')
    ensures w'.log == w.log + [Notice(b, rc)] && w'.nullified == w.nullified + {a, b}
    ensures w'.dest == w.dest[a := NULL][b := NULL]
  {
    var u := Detached(w, a);
    PluggedUnplug(w.dest, a);
    var d :| Found(n, u, b, d) && Served(n, d, rc, u, w');
    FoundHere(n, u, b, d);
    var v := Noticed(u, b, rc);
    assert DidRest(n, ShutSelf(b), v, 0, v, w');
    SelfShut(n, b, rc, v, w');
    var x := Detached(v, b);
    PluggedUnplug(v.dest, b);
    assert Informed(n, a, rc, x, w');
    var e :| Found(n, x, a, e) && Served(n, e, rc, x, w');
    FoundHere(n, x, a, e);
  }

  lemma SelfShut(n: Net, b: Intf, rc: int, v: Snap, w': Snap)
    requires v.log != [] && v.log[|v.log| - 1] == Notice(b, rc) && DidRest(n, ShutSelf(b), v, 0, v, w')
    ensures DidShutdown(n, b, rc, v, w')
  {
    var h := ShutSelf(b);
    assert h.limit(v) == 1 && h.next(v, 0, v) == Act(v.memory, Shutdown(b, rc)) && v.(memory := v.memory) == v;
    var x :| Shrunk(v, x) && Did(n, Shutdown(b, rc), v, x) && DidRest(n, h, v, 1, x, w');
  }

  /** A lookup ends at once at an interface that takes the operation itself. */
  lemma FoundHere(n: Net, w: Snap, start: Intf, d: Intf)
    requires Found(n, w, start, d) && start in CloseOps(n, w.nullified)
    ensures d == start
  {
    var ops := CloseOps(n, w.nullified);
    var path :| PassPath(n, w.dest, w.nullified, ops, start, path, d);
    PathStays(n, w.dest, w.nullified, ops, start, path, d);
  }
}
