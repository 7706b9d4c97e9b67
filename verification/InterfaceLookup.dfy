/** When the search for an operation through pass-through interfaces ends. */
module InterfaceLookup {
  import opened InterfaceModel

  /** A lookup from d, for an operation that no interface has. */
  ghost predicate Lookup(n: Net, dest: Dests, d: Intf, p: seq<Intf>) {
    p != [] && PassPath(n, dest, {}, {}, d, p, p[|p| - 1])
  }

  /** It visits at most k interfaces. */
  ghost predicate Bounded(n: Net, dest: Dests, d: Intf, k: nat) {
    forall p :: Lookup(n, dest, d, p) ==> |p| <= k
  }

  ghost predicate Ends(n: Net, dest: Dests, d: Intf) {
    exists k :: Bounded(n, dest, d, k)
  }

  lemma LookupTail(n: Net, dest: Dests, d: Intf, p: seq<Intf>)
    requires Lookup(n, dest, d, p) && |p| > 1
    ensures PassStep(n, dest, {}, {}, d, p[1]) && Lookup(n, dest, p[1], p[1..])
  {
  }

  lemma LookupFrom(n: Net, dest: Dests, d: Intf, e: Intf, p: seq<Intf>)
    requires PassStep(n, dest, {}, {}, d, e) && Lookup(n, dest, e, p)
    ensures Lookup(n, dest, d, [d] + p)
  {
  }

  lemma {:induction false} RankBounds(n: Net, dest: Dests, rank: map<Intf, nat>, d: Intf, p: seq<Intf>)
    requires n.PassOwn() && dest.Keys == n.owner.Keys && Ranked(n, dest, rank) && Lookup(n, dest, d, p)
    ensures |p| <= 1 + PassRank(n, {}, rank, d)
    decreases |p|
  {
    if |p| > 1 {
      LookupTail(n, dest, d, p);
      PassFacts(n, dest, {}, rank, d);
      RankBounds(n, dest, rank, p[1], p[1..]);
    }
  }

  /** The number of interfaces on the longest lookup. */
  ghost function Longest(n: Net, dest: Dests, d: Intf, k: nat): (r: nat)
    requires Bounded(n, dest, d, k)
    ensures Bounded(n, dest, d, r) && (r > 0 ==> !Bounded(n, dest, d, r - 1))
  {
    if k > 0 && Bounded(n, dest, d, k - 1) then Longest(n, dest, d, k - 1) else k
  }

  ghost function Reach(n: Net, dest: Dests, d: Intf): (r: nat)
    requires Ends(n, dest, d)
    ensures Bounded(n, dest, d, r) && (r > 0 ==> !Bounded(n, dest, d, r - 1))
  {
    var k :| Bounded(n, dest, d, k);
    Longest(n, dest, d, k)
  }

  /** Lookups get shorter with each step. */
  lemma ReachFalls(n: Net, dest: Dests, d: Intf, e: Intf)
    requires Ends(n, dest, d) && Ends(n, dest, e) && PassStep(n, dest, {}, {}, d, e)
    ensures Reach(n, dest, e) < Reach(n, dest, d)
  {
    assert Lookup(n, dest, d, [d]) && Lookup(n, dest, e, [e]);
    var p :| Lookup(n, dest, e, p) && |p| > Reach(n, dest, e) - 1;
    LookupFrom(n, dest, d, e, p);
  }

  lemma AllRanked(n: Net, dest: Dests)
    requires n.PassOwn() && dest.Keys == n.owner.Keys && forall d :: Ends(n, dest, d)
    ensures exists rank :: Ranked(n, dest, rank)
  {
    var rank := map i | i in dest :: Reach(n, dest, dest[i]);
    forall i | i in dest ensures RankFalls(n, dest, rank, i) {
      var d := dest[i];
      if d in n.passthru && n.passthru[d].Some? {
        var j := n.passthru[d].value;
        ReachFalls(n, dest, d, dest[j]);
      }
    }
    assert Ranked(n, dest, rank);
  }

  /**
  Every lookup ends exactly when the interfaces can be ranked, that is when pass-throughs and plugs form no cycle.
  */
  lemma LookupsEndIff(n: Net, dest: Dests)
    requires n.PassOwn() && dest.Keys == n.owner.Keys
    ensures (forall d :: Ends(n, dest, d)) <==> exists rank :: Ranked(n, dest, rank)
  {
    if rank :| Ranked(n, dest, rank) {
      forall d ensures Ends(n, dest, d) {
        forall p | Lookup(n, dest, d, p) ensures |p| <= 1 + PassRank(n, {}, rank, d) {
          RankBounds(n, dest, rank, d, p);
        }
        assert Bounded(n, dest, d, 1 + PassRank(n, {}, rank, d));
      }
    }
    if forall d :: Ends(n, dest, d) { AllRanked(n, dest); }
  }
}
