/**
Objects plugged together through interfaces, and the references that keep them
alive.  Memory is a set of maps: `dest` holds the destination pointer of each
interface and `count` the reference counter of each object.
*/
module InterfaceModel {
  import opened Options

  type Intf = nat
  type Obj = nat

  /** The null interface, which belongs to no object. */
  const NULL: Intf := 0

  type Dests = map<Intf, Intf>

  /** An interface has been told that it is being closed, and why; or it has been made to take operations again. */
  datatype Entry = Notice(intf: Intf, rc: int) | Reinit(intf: Intf)

  /**
  What running code can look at: destinations, nullified interfaces, what has happened so far, in order, and the
  private data of all objects, coded as a number.
  */
  datatype Snap = Snap(dest: Dests, nullified: set<Intf>, log: seq<Entry>, memory: int)

  /** What a close handler does to interfaces of its own object. */
  datatype Action =
    | Shutdown(intf: Intf, rc: int)
    | ShutdownAll(intfs: seq<Intf>, rc: int)
    | Restart(intf: Intf, rc: int)
    | RestartAll(intfs: seq<Intf>, rc: int)

  /** The next thing a handler does: write to memory, and then act or return. */
  datatype Choice = Act(memory: int, action: Action) | Return(memory: int)

  /**
  A close handler.  What it does next may depend on what it found when it was called, on how many actions it
  has taken, and on what there is now, which those actions and all they set off have led to.  How many actions
  it can take is known when it is called.
  */
  datatype Handler = Handler(limit: Snap -> nat, next: (Snap, nat, Snap) -> Choice)

  /**
  The fixed part of the interfaces: containing object, close operation and pass-through of the original
  descriptors.
  */
  datatype Net = Net(
    owner: map<Intf, Option<Obj>>,
    close: map<Intf, Option<Handler>>,
    passthru: map<Intf, Option<Intf>>)
  {

    /** Pass-throughs stay within an object. */
    predicate PassOwn() {
      && passthru.Keys == owner.Keys
      && forall i :: i in passthru && passthru[i].Some? ==>
        passthru[i].value in owner && owner[passthru[i].value] == owner[i]
    }

    /** Close handlers shut down or restart interfaces of their own object. */
    ghost predicate CloseOwn() {
      && close.Keys == owner.Keys
      && forall i :: i in close && close[i].Some? ==> OwnHandler(i, close[i].value)
    }

    ghost predicate Valid() {
      NULL !in owner && PassOwn() && CloseOwn()
    }

    /** The counted object that an interface belongs to, if any. */
    function Owner(i: Intf): Option<Obj> {
      if i in owner then owner[i] else None
    }

    predicate Own(i: Intf, j: Intf) {
      j in owner && owner[j] == Owner(i)
    }

    ghost predicate OwnHandler(i: Intf, h: Handler) {
      forall entry, k, now :: OwnChoice(i, h.next(entry, k, now))
    }

    predicate OwnChoice(i: Intf, c: Choice) {
      c.Act? ==> OwnAction(i, c.action)
    }

    predicate OwnAction(i: Intf, a: Action) {
      match a
      case Shutdown(j, _) => Own(i, j)
      case Restart(j, _) => Own(i, j)
      case ShutdownAll(js, _) => OwnAll(i, js)
      case RestartAll(js, _) => OwnAll(i, js)
    }

    predicate OwnAll(i: Intf, js: seq<Intf>) {
      forall k :: 0 <= k < |js| ==> Own(i, js[k])
    }
  }

  /** The interfaces plugged into an object. */
  function Plugs(n: Net, dest: Dests, o: Obj): set<Intf> {
    set i | i in dest && n.Owner(dest[i]) == Some(o)
  }

  /** The interfaces with a destination. */
  function Plugged(dest: Dests): set<Intf> {
    set i | i in dest && dest[i] != NULL
  }

  /** Plugging i into d moves i between the sets of plugs. */
  lemma PlugsUpdate(n: Net, dest: Dests, i: Intf, d: Intf, o: Obj)
    requires i in dest
    ensures |Plugs(n, dest[i := d], o)| == |Plugs(n, dest, o)|
                                            - (if n.Owner(dest[i]) == Some(o) then 1
                                              else 0) + (if n.Owner(d) == Some(o) then 1 else 0)
  {
    var others := Plugs(n, dest, o) - {i};
    assert Plugs(n, dest, o) == if n.Owner(dest[i]) == Some(o) then others + {i} else others;
    assert Plugs(n, dest[i := d], o) == if n.Owner(d) == Some(o) then others + {i} else others;
  }

  lemma PluggedUnplug(dest: Dests, i: Intf)
    requires i in dest
    ensures Plugged(dest[i := NULL]) == Plugged(dest) - {i}
    ensures |Plugged(dest[i := NULL])| == |Plugged(dest)| - (if dest[i] != NULL then 1 else 0)
  {
    assert Plugged(dest[i := NULL]) == Plugged(dest) - {i};
  }

  /** Some interfaces have been unplugged, and nothing else has happened to the plugs. */
  predicate OnlyUnplugs(before: Dests, after: Dests) {
    before.Keys == after.Keys && forall i :: i in before ==> after[i] == before[i] || after[i] == NULL
  }

  lemma UnplugsShrink(before: Dests, after: Dests)
    requires OnlyUnplugs(before, after)
    ensures Plugged(after) <= Plugged(before) && |Plugged(after)| <= |Plugged(before)|
  {
    Subset(Plugged(after), Plugged(before));
  }

  lemma {:induction false} Subset(a: set<Intf>, b: set<Intf>)
    requires a <= b
    ensures |a| <= |b|
    decreases a
  {
    if a != {} {
      var x :| x in a;
      Subset(a - {x}, b - {x});
    }
  }

  // ---------------------------------------------------------------------
  // Reference counts
  // ---------------------------------------------------------------------

  /** Everything that changes: destinations, counts, freed objects, and references held by running code. */
  datatype State = State(dest: Dests, count: map<Obj, int>, freed: set<Obj>, held: map<Obj, nat>)

  predicate IsIntf(n: Net, d: Intf) {
    d == NULL || d in n.owner
  }

  predicate Shaped(n: Net, s: State) {
    && NULL !in n.owner && s.dest.Keys == n.owner.Keys && s.held.Keys == s.count.Keys
    && (forall i :: i in s.dest ==> IsIntf(n, s.dest[i]))
    && (forall i :: i in n.owner ==> Known(n, s, i))
  }

  /** The object of an interface has a count. */
  predicate Known(n: Net, s: State, i: Intf) {
    n.Owner(i).Some? ==> n.Owner(i).value in s.count
  }

  /**
  Each count is one less than the number of references, which are the plugs and the
  references held by running code; exactly the objects without references are freed.
  */
  predicate Right(n: Net, s: State, o: Obj)
    requires o in s.count && o in s.held
  {
    s.count[o] + 1 == |Plugs(n, s.dest, o)| + s.held[o] && (o in s.freed <==> s.count[o] == -1)
  }

  ghost predicate Inv(n: Net, s: State) {
    Shaped(n, s) && forall o :: o in s.count ==> Right(n, s, o)
  }

  /** Running code holds a reference to the object of an interface. */
  predicate Held(n: Net, s: State, i: Intf) {
    IsIntf(n, i) && (n.Owner(i).Some? ==> n.Owner(i).value in s.held && s.held[n.Owner(i).value] > 0)
  }

  /** The object of an interface has not been freed. */
  predicate Alive(n: Net, s: State, i: Intf) {
    n.Owner(i).Some? ==> n.Owner(i).value !in s.freed
  }

  function Increment(s: State, o: Option<Obj>): State
    requires o.Some? ==> o.value in s.count
  {
    if o.None? then s else s.(count := s.count[o.value := s.count[o.value] + 1])
  }

  /** Free when the count reaches -1. */
  function Decrement(s: State, o: Option<Obj>): State
    requires o.Some? ==> o.value in s.count
  {
    if o.None? then s
    else
      var c := s.count[o.value] - 1;
      s.(count := s.count[o.value := c], freed := if c == -1 then s.freed + {o.value} else s.freed)
  }

  function Hold(s: State, o: Option<Obj>): State
    requires o.Some? ==> o.value in s.held
  {
    if o.None? then s else s.(held := s.held[o.value := s.held[o.value] + 1])
  }

  function Release(s: State, o: Option<Obj>): State
    requires o.Some? ==> o.value in s.held && s.held[o.value] > 0
  {
    if o.None? then s else s.(held := s.held[o.value := s.held[o.value] - 1])
  }

  lemma GetInv(n: Net, s: State, i: Intf)
    requires Inv(n, s) && IsIntf(n, i) && Alive(n, s, i)
    ensures Known(n, s, i) && Inv(n, Increment(Hold(s, n.Owner(i)), n.Owner(i)))
  {
    assert i in n.owner ==> Known(n, s, i);
    var o, t := n.Owner(i), Increment(Hold(s, n.Owner(i)), n.Owner(i));
    forall j | j in n.owner ensures Known(n, t, j) { assert Known(n, s, j); }
    forall p | p in t.count ensures Right(n, t, p) { assert Right(n, s, p); }
  }

  lemma PutInv(n: Net, s: State, i: Intf)
    requires Inv(n, s) && Held(n, s, i)
    ensures Known(n, s, i) && Inv(n, Decrement(Release(s, n.Owner(i)), n.Owner(i)))
  {
    assert i in n.owner ==> Known(n, s, i);
    var t := Decrement(Release(s, n.Owner(i)), n.Owner(i));
    forall j | j in n.owner ensures Known(n, t, j) { assert Known(n, s, j); }
    forall p | p in t.count ensures Right(n, t, p) { assert Right(n, s, p); }
  }

  /** Unplugging turns the reference of the plug into a held one. */
  function Unplugged(n: Net, s: State, i: Intf): State
    requires i in s.dest && (n.Owner(s.dest[i]).Some? ==> n.Owner(s.dest[i]).value in s.held)
  {
    Hold(s, n.Owner(s.dest[i])).(dest := s.dest[i := NULL])
  }

  lemma UnplugRight(n: Net, s: State, i: Intf, p: Obj)
    requires NULL !in n.owner && i in s.dest && Known(n, s, s.dest[i]) && s.held.Keys == s.count.Keys
    requires p in s.count && Right(n, s, p)
    ensures Right(n, Unplugged(n, s, i), p)
  {
    PlugsUpdate(n, s.dest, i, NULL, p);
  }

  lemma UnplugInv(n: Net, s: State, i: Intf)
    requires Inv(n, s) && i in s.dest
    ensures Known(n, s, s.dest[i]) && Inv(n, Unplugged(n, s, i)) && Held(n, Unplugged(n, s, i), s.dest[i])
  {
    assert s.dest[i] in n.owner ==> Known(n, s, s.dest[i]);
    var t := Unplugged(n, s, i);
    forall j | j in n.owner ensures Known(n, t, j) { assert Known(n, s, j); }
    forall p | p in t.count ensures Right(n, t, p) { UnplugRight(n, s, i, p); }
  }

  /** What intf_plug() does to the state: the plug's reference moves from the old destination to the new one. */
  function Replugged(n: Net, s: State, i: Intf, d: Intf): State
    requires i in s.dest && Known(n, s, s.dest[i]) && Known(n, s, d)
  {
    Decrement(Increment(s, n.Owner(d)), n.Owner(s.dest[i])).(dest := s.dest[i := d])
  }

  lemma ReplugRight(n: Net, s: State, i: Intf, d: Intf, p: Obj)
    requires i in s.dest && Known(n, s, s.dest[i]) && Known(n, s, d) && s.held.Keys == s.count.Keys && Alive(n, s, d)
    requires p in s.count && Right(n, s, p)
    ensures Right(n, Replugged(n, s, i, d), p)
  {
    PlugsUpdate(n, s.dest, i, d, p);
    if n.Owner(s.dest[i]) == Some(p) { assert i in Plugs(n, s.dest, p); }
  }

  lemma StepsKeep(s: State, o: Option<Obj>)
    requires o.Some? ==> o.value in s.count
    ensures Increment(s, o).count.Keys == s.count.Keys && Decrement(s, o).count.Keys == s.count.Keys
    ensures s.freed <= Decrement(s, o).freed
  {
  }

  /** Shape depends on the destinations and on which objects have a count. */
  lemma ShapedSame(n: Net, s: State, t: State)
    requires Shaped(n, s) && t.count.Keys == s.count.Keys == t.held.Keys && t.dest.Keys == s.dest.Keys
    requires forall i :: i in t.dest ==> IsIntf(n, t.dest[i])
    ensures Shaped(n, t)
  {
  }

  lemma IntfKnown(n: Net, s: State, i: Intf)
    requires Shaped(n, s)
    ensures Known(n, s, i) && (i in s.dest ==> Known(n, s, s.dest[i]))
  {
  }

  lemma ReplugKeys(n: Net, s: State, i: Intf, d: Intf)
    requires i in s.dest && Known(n, s, s.dest[i]) && Known(n, s, d)
    ensures var t := Replugged(n, s, i, d);
            t.count.Keys == s.count.Keys && t.held == s.held && s.freed <= t.freed && t.dest.Keys == s.dest.Keys
  {
    StepsKeep(s, n.Owner(d));
    StepsKeep(Increment(s, n.Owner(d)), n.Owner(s.dest[i]));
  }

  lemma ReplugInv(n: Net, s: State, i: Intf, d: Intf)
    requires Inv(n, s) && i in s.dest && IsIntf(n, d) && Alive(n, s, d)
    ensures Known(n, s, s.dest[i]) && Known(n, s, d) && Inv(n, Replugged(n, s, i, d))
    ensures s.freed <= Replugged(n, s, i, d).freed && Replugged(n, s, i, d).held == s.held
  {
    IntfKnown(n, s, i);
    IntfKnown(n, s, d);
    ReplugKeys(n, s, i, d);
    var t := Replugged(n, s, i, d);
    ShapedSame(n, s, t);
    forall p | p in t.count ensures Right(n, t, p) { ReplugRight(n, s, i, d, p); }
  }

  /** No object is freed while a plug or a held reference remains, and every other one is. */
  lemma FreedIff(n: Net, s: State, o: Obj)
    requires Inv(n, s) && o in s.count
    ensures o in s.freed <==> s.held[o] == 0 && Plugs(n, s.dest, o) == {}
  {
    assert Right(n, s, o);
  }

  /** The destination of a plug is alive, and so is the object of a held reference. */
  lemma PluggedAlive(n: Net, s: State, i: Intf)
    requires Inv(n, s)
    ensures i in s.dest ==> Alive(n, s, s.dest[i])
    ensures Held(n, s, i) ==> Alive(n, s, i)
  {
    if i in s.dest && n.Owner(s.dest[i]).Some? {
      var o := n.Owner(s.dest[i]).value;
      assert Known(n, s, s.dest[i]);
      FreedIff(n, s, o);
      assert i in Plugs(n, s.dest, o);
    }
    if Held(n, s, i) && n.Owner(i).Some? {
      assert Known(n, s, i);
      FreedIff(n, s, n.Owner(i).value);
    }
  }

  // ---------------------------------------------------------------------
  // Pass-through
  // ---------------------------------------------------------------------

  /** The pass-through interface of a destination, unless its descriptor has been replaced by the null one. */
  function PassThru(n: Net, nullified: set<Intf>, d: Intf): Option<Intf> {
    if d in n.passthru && d !in nullified then n.passthru[d] else None
  }

  /** Ranks that fall along every pass-through: there is no cycle of them. */
  predicate Ranked(n: Net, dest: Dests, rank: map<Intf, nat>) {
    forall i :: i in dest ==> RankFalls(n, dest, rank, i)
  }

  predicate RankFalls(n: Net, dest: Dests, rank: map<Intf, nat>, i: Intf)
    requires i in dest
  {
    dest[i] in n.passthru && n.passthru[dest[i]].Some? ==>
      i in rank && n.passthru[dest[i]].value in rank && rank[n.passthru[dest[i]].value] < rank[i]
  }

  /** How far a lookup can still go from a destination. */
  function PassRank(n: Net, nullified: set<Intf>, rank: map<Intf, nat>, d: Intf): nat {
    var j := PassThru(n, nullified, d);
    if j.None? then 0 else if j.value in rank then 1 + rank[j.value] else 1
  }

  lemma PassFacts(n: Net, dest: Dests, nullified: set<Intf>, rank: map<Intf, nat>, d: Intf)
    requires n.PassOwn() && dest.Keys == n.owner.Keys && Ranked(n, dest, rank) && PassThru(n, nullified, d).Some?
    ensures var j := PassThru(n, nullified, d).value;
            j in dest && n.Owner(j) == n.Owner(d) &&
              PassRank(n, nullified, rank, dest[j]) < PassRank(n, nullified, rank, d)
  {
  }

  lemma UnplugsRanked(n: Net, before: Dests, after: Dests, rank: map<Intf, nat>)
    requires Ranked(n, before, rank) && OnlyUnplugs(before, after) && NULL !in n.passthru
    ensures Ranked(n, after, rank)
  {
  }

  /** The way a lookup goes from start to d: through the pass-through of each interface without the operation. */
  ghost predicate PassPath(n: Net, dest: Dests, nullified: set<Intf>, ops: set<Intf>, start: Intf, p: seq<Intf>,
                           d: Intf) {
    && p != [] && p[0] == start && p[|p| - 1] == d
    && forall k :: 0 <= k < |p| - 1 ==> PassStep(n, dest, nullified, ops, p[k], p[k + 1])
  }

  predicate PassStep(n: Net, dest: Dests, nullified: set<Intf>, ops: set<Intf>, d: Intf, e: Intf) {
    d !in ops && var j := PassThru(n, nullified, d); j.Some? && j.value in dest && dest[j.value] == e
  }

  lemma PathGrows(n: Net, dest: Dests, nullified: set<Intf>, ops: set<Intf>, start: Intf, p: seq<Intf>, d: Intf,
                  e: Intf)
    requires PassPath(n, dest, nullified, ops, start, p, d) && PassStep(n, dest, nullified, ops, d, e)
    ensures PassPath(n, dest, nullified, ops, start, p + [e], e)
  {
  }

  lemma PathStays(n: Net, dest: Dests, nullified: set<Intf>, ops: set<Intf>, start: Intf, p: seq<Intf>, d: Intf)
    requires PassPath(n, dest, nullified, ops, start, p, d) && start in ops
    ensures d == start
  {
    assert |p| > 1 ==> PassStep(n, dest, nullified, ops, p[0], p[0 + 1]);
  }

  /** An interface whose pass-through is plugged back into it: a lookup from there can go on forever. */
  lemma PassCycle(k: nat)
    ensures var n := Net(map[1 := None, 2 := None], map[1 := None, 2 := None], map[1 := Some(2), 2 := None]);
            n.Valid() && exists p :: |p| == k + 1 && PassPath(n, map[1 := NULL, 2 := 1], {}, {}, 1, p, 1)
  {
    var n := Net(map[1 := None, 2 := None], map[1 := None, 2 := None], map[1 := Some(2), 2 := None]);
    var p: seq<Intf> := seq(k + 1, i => 1);
    assert PassStep(n, map[1 := NULL, 2 := 1], {}, {}, 1, 1);
    assert PassPath(n, map[1 := NULL, 2 := 1], {}, {}, 1, p, 1);
  }

  /** The state with one more reference held to the object of a live interface. */
  ghost predicate Holding(n: Net, s: State, t: State, d: Intf) {
    IsIntf(n, d) && Alive(n, s, d) && Known(n, s, d) && s.held.Keys == s.count.Keys &&
      t == Increment(Hold(s, n.Owner(d)), n.Owner(d))
  }

  lemma Restored<T>(m: map<Obj, T>, o: Obj, x: T)
    requires o in m
    ensures m[o := x][o := m[o]] == m
  {
  }

  lemma HoldRelease(s: State, o: Obj)
    requires o in s.count && o in s.held && s.count[o] >= 0
    ensures Decrement(Release(Increment(Hold(s, Some(o)), Some(o)), Some(o)), Some(o)) == s
  {
  }

  /** A get followed by a put on a live object changes nothing. */
  lemma GetPut(n: Net, s: State, i: Intf)
    requires Inv(n, s) && IsIntf(n, i) && Alive(n, s, i)
    ensures Known(n, s, i)
    ensures var t := Increment(Hold(s, n.Owner(i)), n.Owner(i));
            Held(n, t, i) && Decrement(Release(t, n.Owner(i)), n.Owner(i)) == s
  {
    IntfKnown(n, s, i);
    if n.Owner(i).Some? {
      assert Right(n, s, n.Owner(i).value);
      HoldRelease(s, n.Owner(i).value);
    }
  }

  // ---------------------------------------------------------------------
  // Close cascades
  // ---------------------------------------------------------------------

  /** What a close cascade may do: unplug interfaces and free objects; every reference held before is still held. */
  ghost predicate Effect(n: Net, s: State, t: State) {
    Inv(n, t) && t.held == s.held && OnlyUnplugs(s.dest, t.dest) && s.freed <= t.freed
  }

  lemma EffectThen(n: Net, s: State, t: State, u: State)
    requires Effect(n, s, t) && Effect(n, t, u)
    ensures Effect(n, s, u)
  {
  }

  lemma EffectRanked(n: Net, s: State, t: State, rank: map<Intf, nat>)
    requires Effect(n, s, t) && Ranked(n, s.dest, rank) && NULL !in n.passthru
    ensures Ranked(n, t.dest, rank) && |Plugged(t.dest)| <= |Plugged(s.dest)|
  {
    UnplugsRanked(n, s.dest, t.dest, rank);
    UnplugsShrink(s.dest, t.dest);
  }

  /** A cascade that runs while one more reference is held, which is dropped afterwards. */
  lemma EffectAround(n: Net, s: State, o: Option<Obj>, t: State, u: State)
    requires (o.Some? ==> o.value in s.held && o.value in u.count) && t.held == Hold(s, o).held
    requires Effect(n, t, u) && OnlyUnplugs(s.dest, t.dest) && s.freed <= t.freed
    ensures o.Some? ==> u.held[o.value] > 0
    ensures Inv(n, Decrement(Release(u, o), o)) ==> Effect(n, s, Decrement(Release(u, o), o))
  {
    if o.Some? { Restored(s.held, o.value, s.held[o.value] + 1); }
  }
}
