/** sanboot.c: the close handler of a path, which looks at the device before it decides what to restart. */
module SanClose {
  import opened Options
  import opened InterfaceModel
  import opened InterfaceTrace
  import opened InterfaceLaws
  import SanModel

  /** A path with its block interface, the command interface of its device, and where memory says that it is active. */
  datatype Path = Path(block: Intf, command: Intf, active: int -> bool, clear: int -> int) {
    ghost predicate Valid() {
      forall m :: !active(clear(m))
    }
  }

  /** Any closure is an error. */
  function Reason(entry: Snap): int {
    var last := if entry.log == [] then Reinit(NULL) else entry.log[|entry.log| - 1];
    if last.Reinit? || last.rc == 0 then SanModel.ENOTCONN else last.rc
  }

  /** The interfaces to restart. */
  function Affected(p: Path, entry: Snap): Action {
    if p.active(entry.memory) then RestartAll([p.command, p.block], Reason(entry)) else Restart(p.block, Reason(entry))
  }

  /** sanpath_block_close() and sanpath_close(), as far as interfaces and the active path are concerned. */
  function BlockClose(p: Path): Handler {
    Handler(_ => 2, (entry: Snap, k: nat, now: Snap) =>
      if k == 0 then Act(now.memory, Affected(p, entry))
      else Return(if p.active(entry.memory) then p.clear(now.memory) else now.memory))
  }

  /** It only restarts interfaces of its own object. */
  lemma BlockCloseOwn(n: Net, p: Path)
    requires n.Own(p.block, p.block) && n.Own(p.block, p.command)
    ensures n.OwnHandler(p.block, BlockClose(p))
  {
    var h := BlockClose(p);
    forall entry, k, now ensures n.OwnChoice(p.block, h.next(entry, k, now)) {
      assert n.OwnAction(p.block, Affected(p, entry));
    }
  }

  /** What is left of a restarted interface. */
  predicate Idle(w: Snap, i: Intf) {
    Loose(w, i) && i !in w.nullified
  }

  lemma RestartIdle(n: Net, list: seq<Intf>, rc: int, w: Snap, w': Snap)
    requires n.Valid() && Of(n, w) && DidRestartAll(n, list, rc, w, w')
    ensures Later(w, w') && forall i :: i in list ==> Idle(w', i)
  {
    var v :| DidAll(n, list, rc, Nullified(w, list), v) && w' == Reinitialised(v, list);
    AllLater(n, list, rc, Nullified(w, list), v);
  }

  lemma AffectedIdle(n: Net, p: Path, entry: Snap, w: Snap, w': Snap)
    requires n.Valid() && Of(n, w) && Did(n, Affected(p, entry), w, w')
    ensures Later(w, w') && Idle(w', p.block) && (p.active(entry.memory) ==> Idle(w', p.command))
  {
    if p.active(entry.memory) {
      RestartIdle(n, [p.command, p.block], Reason(entry), w, w');
      assert p.block in [p.command, p.block] && p.command in [p.command, p.block];
    } else {
      RestartOpen(n, p.block, Reason(entry), w, w');
    }
  }

  /** The state after the restart, with the active path cleared if it was this one. */
  function Cleared(p: Path, entry: Snap, v: Snap): Snap {
    v.(memory := if p.active(entry.memory) then p.clear(v.memory) else v.memory)
  }

  lemma TwoSteps(n: Net, p: Path, entry: Snap, w': Snap)
    requires DidRest(n, BlockClose(p), entry, 0, entry, w')
    ensures exists v :: Did(n, Affected(p, entry), entry, v) && w' == Cleared(p, entry, v)
  {
    var h := BlockClose(p);
    assert h.limit(entry) == 2 && h.next(entry, 0, entry) == Act(entry.memory, Affected(p, entry));
    assert entry.(memory := entry.memory) == entry;
    var v :| Shrunk(entry, v) && Did(n, Affected(p, entry), entry, v) && DidRest(n, h, entry, 1, v, w');
    assert h.next(entry, 1, v).Return?;
  }

  /**
  Whatever the peers of the path do when they are told: once the handler has returned, the path's block interface
  is unplugged and takes operations again, and if the path was active then so is the command interface, and the path
  is no longer active.
  */
  lemma PathServed(n: Net, p: Path, rc: int, w: Snap, w': Snap)
    requires n.Valid() && Of(n, w) && p.Valid() && p.block in n.close && n.close[p.block] == Some(BlockClose(p))
    requires Served(n, p.block, rc, w, w') && !Deaf(w, p.block)
    ensures Idle(w', p.block) && w.log + [Notice(p.block, rc)] <= w'.log
    ensures p.active(w.memory) ==> Idle(w', p.command) && !p.active(w'.memory)
  {
    var entry := w.(log := w.log + [Notice(p.block, rc)]);
    TwoSteps(n, p, entry, w');
    var v :| Did(n, Affected(p, entry), entry, v) && w' == Cleared(p, entry, v);
    AffectedIdle(n, p, entry, entry, v);
  }
}
