/** interface.c and refcnt.c: plugging, operation lookup, and close cascades. */
module InterfaceRuntime {
  import opened Options
  import opened InterfaceModel
  import opened InterfaceTrace
  import opened InterfaceLaws

  class World {
    const net: Net
    // Destination of each interface; interfaces whose descriptor is the null one
    var dest: Dests
    var nullified: set<Intf>
    // Reference counts; objects whose free() method has been called
    var count: map<Obj, int>
    var freed: set<Obj>
    // Notices of close operations, and the private data of all objects: what handlers decide by
    var log: seq<Entry>
    var memory: int
    // References held by running code
    ghost var held: map<Obj, nat>

    ghost function Now(): State
      reads `dest, `count, `freed, `held
    {
      State(dest, count, freed, held)
    }

    function Shot(): Snap
      reads `dest, `nullified, `log, `memory
    {
      Snap(dest, nullified, log, memory)
    }

    ghost predicate Valid()
      reads `dest, `count, `freed, `held
    {
      Inv(net, Now())
    }

    /** Objects just created: each has one reference, which its creator holds, and no interface is plugged in. */
    constructor (n: Net, objects: set<Obj>, memory: int)
      requires NULL !in n.owner && forall i :: i in n.owner && n.owner[i].Some? ==> n.owner[i].value in objects
      ensures Valid() && net == n && Plugged(dest) == {} && nullified == {} && freed == {} && log == [] &&
              this.memory == memory
      ensures held == map o | o in objects :: 1
    {
      net := n;
      dest, nullified := map i | i in n.owner :: NULL, {};
      count, freed := map o | o in objects :: 0, {};
      log, this.memory := [], memory;
      held := map o | o in objects :: 1;
      new;
      forall o | o in count ensures Right(net, Now(), o) {
        assert Plugs(net, dest, o) == {};
      }
    }

    /** ref_increment() */
    method RefIncrement(o: Option<Obj>)
      requires o.Some? ==> o.value in count
      modifies `count
      ensures Now() == Increment(old(Now()), o)
    {
      if o.Some? {
        count := count[o.value := count[o.value] + 1];
      }
    }

    /** ref_decrement(): free when the count reaches -1, and only then. */
    method RefDecrement(o: Option<Obj>)
      requires o.Some? ==> o.value in count
      modifies `count, `freed
      ensures Now() == Decrement(old(Now()), o)
    {
      if o.None? { return; }
      count := count[o.value := count[o.value] - 1];
      if count[o.value] >= 0 { return; }
      if count[o.value] < -1 { return; }
      freed := freed + {o.value};
    }

    /** intf_get() */
    method Get(i: Intf)
      requires Valid() && IsIntf(net, i) && Alive(net, Now(), i)
      modifies `count, `held
      ensures Known(net, old(Now()), i) && Now() == Increment(Hold(old(Now()), net.Owner(i)), net.Owner(i))
      ensures Valid() && Held(net, Now(), i)
    {
      GetInv(net, Now(), i);
      held := Hold(Now(), net.Owner(i)).held;
      RefIncrement(net.Owner(i));
    }

    /** intf_put() */
    method Put(i: Intf)
      requires Valid() && Held(net, Now(), i)
      modifies `count, `held, `freed
      ensures Known(net, old(Now()), i) && Now() == Decrement(Release(old(Now()), net.Owner(i)), net.Owner(i))
      ensures Valid()
    {
      PutInv(net, Now(), i);
      held := Release(Now(), net.Owner(i)).held;
      RefDecrement(net.Owner(i));
    }

    /** intf_plug() */
    method Plug(i: Intf, d: Intf)
      requires Valid() && i in dest && IsIntf(net, d) && Alive(net, Now(), d)
      modifies `dest, `count, `freed
      ensures Valid() && dest == old(dest)[i := d] && old(freed) <= freed
    {
      ReplugInv(net, Now(), i, d);
      RefIncrement(net.Owner(d));
      RefDecrement(net.Owner(dest[i]));
      dest := dest[i := d];
      assert Now() == Replugged(net, old(Now()), i, d);
    }

    /** intf_unplug() */
    method Unplug(i: Intf)
      requires Valid() && i in dest
      modifies `dest, `count, `freed
      ensures Valid() && dest == old(dest)[i := NULL] && old(freed) <= freed
    {
      ReplugInv(net, Now(), i, NULL);
      RefDecrement(net.Owner(dest[i]));
      dest := dest[i := NULL];
      assert Now() == Replugged(net, old(Now()), i, NULL);
    }

    /** From a destination through its pass-through interface j to the next destination. */
    method Hop(d: Intf, j: Intf, ghost s: State) returns (d': Intf)
      requires Inv(net, s) && dest == s.dest && Holding(net, s, Now(), d) && j in dest && net.Owner(j) == net.Owner(d)
      modifies `count, `held, `freed
      ensures d' == dest[j] && Holding(net, s, Now(), d')
    {
      GetInv(net, s, d);
      GetPut(net, s, d);
      Put(d);
      assert Alive(net, Now(), j);
      PluggedAlive(net, s, j);
      d' := dest[j];
      Get(d');
      IntfKnown(net, s, d');
    }

    /** intf_get_dest_op_untyped(): follow pass-throughs from a destination to the one that takes the operation. */
    method GetDestOp(start: Intf, ops: set<Intf>, ghost rank: map<Intf, nat>) returns (d: Intf, ghost path: seq<Intf>)
      requires Valid() && net.PassOwn() && Ranked(net, dest, rank) && IsIntf(net, start) && Alive(net, Now(), start)
      modifies `count, `held, `freed
      ensures Holding(net, old(Now()), Now(), d)
      ensures PassPath(net, dest, nullified, ops, start, path, d)
      ensures d in ops || PassThru(net, nullified, d).None?
    {
      ghost var s := Now();
      IntfKnown(net, s, start);
      d := start;
      path := [start];
      Get(d);
      while d !in ops && PassThru(net, nullified, d).Some?
        invariant Holding(net, s, Now(), d)
        invariant PassPath(net, dest, nullified, ops, start, path, d)
        decreases PassRank(net, nullified, rank, d)
      {
        var j := PassThru(net, nullified, d).value;
        PassFacts(net, dest, nullified, rank, d);
        PathGrows(net, dest, nullified, ops, start, path, d, dest[j]);
        d := Hop(d, j, s);
        path := path + [d];
      }
    }

    // -------------------------------------------------------------------
    // Close cascades
    // -------------------------------------------------------------------

    /** What close cascades start from. */
    ghost predicate Ready(rank: map<Intf, nat>)
      reads `dest, `count, `freed, `held
    {
      Valid() && net.Valid() && Ranked(net, dest, rank)
    }

    /** How many close operations have been delivered or can still be caused by unplugging. */
    ghost function Budget(): nat
      reads `dest, `log
    {
      Notices(log) + |Plugged(dest)|
    }

    /** intf_close(), on behalf of an interface plugged into `start`. */
    method Close(start: Intf, rc: int, ghost rank: map<Intf, nat>) returns (d: Intf)
      requires Ready(rank) && Held(net, Now(), start)
      modifies this
      ensures Effect(net, old(Now()), Now())
      ensures Found(net, old(Shot()), start, d) && Served(net, d, rc, old(Shot()), Shot())
      ensures forall i :: Blocked(i, old(Shot()), Shot())
      ensures Budget() <= old(Budget()) + (if start == NULL then 0 else 1)
      decreases |Plugged(dest)|, if start == NULL then 0 else 4, 1
    {
      ghost var s, w := Now(), Shot();
      PluggedAlive(net, s, start);
      ghost var path;
      d, path := GetDestOp(start, CloseOps(net, nullified), rank);
      GetInv(net, s, d);
      if start == NULL { PathStays(net, dest, nullified, CloseOps(net, nullified), start, path, d); }
      assert Found(net, w, start, d);
      ghost var t := Now();
      Deliver(start, d, rc, rank);
      EffectAround(net, s, net.Owner(d), t, Now());
      Put(d);
      forall i ensures Blocked(i, w, Shot()) { ServedBlocked(net, d, rc, w, Shot(), i); }
    }

    /** The close operation of d, or its default, while a reference to its object is held. */
    method Deliver(ghost start: Intf, d: Intf, rc: int, ghost rank: map<Intf, nat>)
      requires Ready(rank) && Held(net, Now(), d) && (start == NULL ==> d == NULL)
      modifies this
      ensures Effect(net, old(Now()), Now()) && Served(net, d, rc, old(Shot()), Shot())
      ensures Budget() <= old(Budget()) + (if start == NULL then 0 else 1)
      decreases |Plugged(dest)|, if start == NULL then 0 else 4, 0
    {
      if d == NULL || d in nullified {
        return;
      }
      NoticesMore(log, Notice(d, rc));
      log := log + [Notice(d, rc)];
      if net.close[d].Some? {
        RunHandler(d, net.close[d].value, Shot(), 0, rank);
      } else {
        Restart(d, rc, rank);
      }
    }

    /** A close handler of d, from its action k on; the object of d is held. */
    method RunHandler(d: Intf, h: Handler, entry: Snap, k: nat, ghost rank: map<Intf, nat>)
      requires Ready(rank) && Held(net, Now(), d) && net.OwnHandler(d, h)
      modifies this
      ensures Effect(net, old(Now()), Now()) && DidRest(net, h, entry, k, old(Shot()), Shot())
      ensures Budget() <= old(Budget())
      decreases |Plugged(dest)|, 3, h.limit(entry) - k
    {
      if k >= h.limit(entry) { return; }
      var c := h.next(entry, k, Shot());
      assert net.OwnChoice(d, c);
      memory := c.memory;
      if c.Return? { return; }
      ghost var s := Now();
      RunAction(d, c.action, rank);
      EffectRanked(net, s, Now(), rank);
      ghost var t := Now();
      RunHandler(d, h, entry, k + 1, rank);
      EffectThen(net, s, t, Now());
    }

    method RunAction(d: Intf, action: Action, ghost rank: map<Intf, nat>)
      requires Ready(rank) && Held(net, Now(), d) && net.OwnAction(d, action)
      modifies this
      ensures Effect(net, old(Now()), Now()) && Did(net, action, old(Shot()), Shot())
      ensures Budget() <= old(Budget())
      decreases |Plugged(dest)|, 3, 0
    {
      match action {
        case Shutdown(i, rc) => ShutdownIntf(i, rc, rank);
        case Restart(i, rc) => Restart(i, rc, rank);
        case ShutdownAll(list, rc) => NullifyAll(list); ShutdownAll(d, list, rc, rank);
        case RestartAll(list, rc) => NullifyAll(list); ShutdownAll(d, list, rc, rank); ReinitAll(d, list);
      }
    }

    /** The first loop of intfs_vshutdown(). */
    method NullifyAll(list: seq<Intf>)
      modifies `nullified
      ensures Shot() == Nullified(old(Shot()), list)
    {
      var k := 0;
      while k < |list|
        invariant 0 <= k <= |list| && nullified == old(nullified) + Members(list[..k])
      {
        assert list[..k + 1] == list[..k] + [list[k]];
        nullified := nullified + {list[k]};
        k := k + 1;
      }
      assert list[..k] == list;
    }

    /** The second loop of intfs_vshutdown(). */
    method ShutdownAll(d: Intf, list: seq<Intf>, rc: int, ghost rank: map<Intf, nat>)
      requires Ready(rank) && Held(net, Now(), d) && net.OwnAll(d, list)
      modifies this
      ensures Effect(net, old(Now()), Now()) && DidAll(net, list, rc, old(Shot()), Shot())
      ensures Budget() <= old(Budget())
      decreases |Plugged(dest)|, 2, |list|
    {
      if list == [] { return; }
      ghost var s := Now();
      assert net.Own(d, list[0]);
      ShutdownIntf(list[0], rc, rank);
      EffectRanked(net, s, Now(), rank);
      ghost var t := Now();
      ShutdownAll(d, list[1..], rc, rank);
      EffectThen(net, s, t, Now());
    }

    /** The last loop of intfs_vrestart(): the interfaces still exist, because their object is held. */
    method ReinitAll(d: Intf, list: seq<Intf>)
      requires Valid() && Held(net, Now(), d) && net.OwnAll(d, list)
      modifies `nullified, `log
      ensures Shot() == Reinitialised(old(Shot()), list) && Notices(log) == Notices(old(log))
    {
      PluggedAlive(net, Now(), d);
      var k := 0;
      while k < |list|
        invariant 0 <= k <= |list| && Shot() == Reinitialised(old(Shot()), list[..k]) &&
                  Notices(log) == Notices(old(log))
      {
        assert net.Own(d, list[k]) && Alive(net, Now(), list[k]);
        ReinitNext(old(Shot()), list, k);
        Reinitialise(list[k]);
        k := k + 1;
      }
      assert list[..k] == list;
    }

    /** intf_reinit() */
    method Reinitialise(i: Intf)
      modifies `nullified, `log
      ensures nullified == old(nullified) - {i} && log == old(log) + [Reinit(i)] && Notices(log) == Notices(old(log))
    {
      NoticesMore(log, Reinit(i));
      nullified := nullified - {i};
      log := log + [Reinit(i)];
    }

    /** Block further operations, and transfer the destination to a temporary interface. */
    method Detach(i: Intf) returns (tmp: Intf)
      requires Valid() && i in dest
      modifies `nullified, `dest, `held
      ensures Valid() && tmp == old(dest)[i] && Held(net, Now(), tmp)
      ensures Shot() == Detached(old(Shot()), i) && i in nullified && dest[i] == NULL && log == old(log)
      ensures Known(net, old(Now()), tmp) && held == Hold(old(Now()), net.Owner(tmp)).held
      ensures |Plugged(dest)| == |Plugged(old(dest))| - (if tmp != NULL then 1 else 0)
    {
      ghost var s := Now();
      nullified := nullified + {i};
      UnplugInv(net, s, i);
      PluggedUnplug(dest, i);
      tmp := dest[i];
      dest := dest[i := NULL];
      held := Hold(s, net.Owner(tmp)).held;
      assert Now() == Unplugged(net, s, i);
    }

    /** Notify the destination via the temporary interface. */
    method Notify(tmp: Intf, rc: int, ghost rank: map<Intf, nat>)
      requires Ready(rank) && Held(net, Now(), tmp)
      modifies this
      ensures Effect(net, old(Now()), Now()) && Informed(net, tmp, rc, old(Shot()), Shot())
      ensures Budget() <= old(Budget()) + (if tmp == NULL then 0 else 1)
      decreases |Plugged(dest)|, if tmp == NULL then 0 else 4, 2
    {
      ghost var w := Shot();
      var d := Close(tmp, rc, rank);
      if tmp == NULL { FoundHere(net, w, tmp, d); }
    }

    /** Unplug the temporary interface; s is the state before it was made, and t the one when it was. */
    method UnplugTemporary(tmp: Intf, ghost s: State, ghost t: State)
      requires OnlyUnplugs(s.dest, t.dest) && s.freed <= t.freed && Effect(net, t, Now())
      requires Held(net, t, tmp) && Known(net, s, tmp) && s.held.Keys == s.count.Keys &&
               t.held == Hold(s, net.Owner(tmp)).held
      modifies `count, `held, `freed
      ensures Effect(net, s, Now())
    {
      IntfKnown(net, Now(), tmp);
      EffectAround(net, s, net.Owner(tmp), t, Now());
      Put(tmp);
    }

    /** Notify via the temporary interface, and unplug that. */
    method CloseTemporary(tmp: Intf, rc: int, ghost s: State, ghost rank: map<Intf, nat>)
      requires Ready(rank) && Held(net, Now(), tmp) && OnlyUnplugs(s.dest, dest) && s.freed <= freed
      requires Known(net, s, tmp) && s.held.Keys == s.count.Keys && held == Hold(s, net.Owner(tmp)).held
      modifies this
      ensures Effect(net, s, Now()) && OnlyUnplugs(old(dest), dest) && Informed(net, tmp, rc, old(Shot()), Shot())
      ensures Budget() <= old(Budget()) + (if tmp == NULL then 0 else 1)
      decreases |Plugged(dest)|, if tmp == NULL then 0 else 4, 3
    {
      ghost var t := Now();
      Notify(tmp, rc, rank);
      UnplugTemporary(tmp, s, t);
    }

    /** intf_shutdown() */
    method ShutdownIntf(i: Intf, rc: int, ghost rank: map<Intf, nat>)
      requires Ready(rank) && i in dest
      modifies this
      ensures Effect(net, old(Now()), Now()) && DidShutdown(net, i, rc, old(Shot()), Shot())
      ensures Budget() <= old(Budget())
      ensures dest[i] == NULL && old(log) <= log
      ensures Silent(i, log[|old(log)|..]) && (i in nullified || Reinit(i) in log[|old(log)|..])
      ensures Due(net, {}, old(Shot()), Shot())
      decreases |Plugged(dest)|, 1
    {
      ghost var s, w := Now(), Shot();
      var tmp := Detach(i);
      UnplugsRanked(net, s.dest, dest, rank);
      CloseTemporary(tmp, rc, s, rank);
      ShutdownKeeps(i, rc, w);
    }

    /** What follows from the trace of a shutdown. */
    lemma ShutdownKeeps(i: Intf, rc: int, w: Snap)
      requires net.Valid() && Of(net, w) && DidShutdown(net, i, rc, w, Shot())
      ensures Later(w, Shot()) && Loose(Shot(), i) && Due(net, {}, w, Shot())
      ensures Silent(i, Since(w, Shot())) && (i in nullified || Reinit(i) in Since(w, Shot()))
    {
      ShutdownLater(net, i, rc, w, Shot());
      ShutdownBlocks(net, i, rc, w, Shot());
      ShutdownDue(net, i, rc, w, Shot());
    }

    /** intf_restart() */
    method Restart(i: Intf, rc: int, ghost rank: map<Intf, nat>)
      requires Ready(rank) && i in dest && Held(net, Now(), i)
      modifies this
      ensures Effect(net, old(Now()), Now()) && DidRestart(net, i, rc, old(Shot()), Shot())
      ensures Budget() <= old(Budget())
      decreases |Plugged(dest)|, 2
    {
      ShutdownIntf(i, rc, rank);
      PluggedAlive(net, Now(), i);
      assert Alive(net, Now(), i);
      ghost var v := Shot();
      Reinitialise(i);
      assert i in [i] && Members([i]) == {i} && Reinits([i]) == [Reinit(i)];
      assert Shot() == Reinitialised(v, [i]);
    }
  }
}
