/** Lists without repetitions, as the linked lists of list.h are used. */
module Lists {

  predicate Distinct(l: seq<nat>) {
    l == [] || (l[0] !in l[1..] && Distinct(l[1..]))
  }

  /** list_del() */
  function Remove(l: seq<nat>, p: nat): seq<nat> {
    if l == [] then [] else if l[0] == p then l[1..] else [l[0]] + Remove(l[1..], p)
  }

  lemma {:induction false} RemoveDistinct(l: seq<nat>, p: nat)
    requires Distinct(l)
    ensures Distinct(Remove(l, p)) && (forall q :: q in Remove(l, p) <==> q in l && q != p)
    ensures |Remove(l, p)| == |l| - (if p in l then 1 else 0)
  {
    if l != [] && l[0] != p { RemoveDistinct(l[1..], p); }
  }

  lemma {:induction false} AppendDistinct(l: seq<nat>, p: nat)
    requires Distinct(l) && p !in l
    ensures Distinct(l + [p])
  {
    if l != [] {
      AppendDistinct(l[1..], p);
      assert (l + [p])[1..] == l[1..] + [p];
    }
  }

  lemma {:induction false} RemoveAbsent(l: seq<nat>, p: nat)
    requires p !in l
    ensures Remove(l, p) == l
  {
    if l != [] { RemoveAbsent(l[1..], p); }
  }

  /** No two places hold the same element. */
  lemma {:induction false} DistinctIff(l: seq<nat>)
    ensures Distinct(l) <==> forall i, j :: 0 <= i < j < |l| ==> l[i] != l[j]
  {
    if l != [] {
      DistinctIff(l[1..]);
      if forall i, j :: 0 <= i < j < |l| ==> l[i] != l[j] {
        forall i, j | 0 <= i < j < |l[1..]| ensures l[1..][i] != l[1..][j] { assert l[i + 1] != l[j + 1]; }
        forall j | 0 <= j < |l[1..]| ensures l[1..][j] != l[0] { assert l[0] != l[j + 1]; }
      }
      if Distinct(l) {
        forall i, j | 0 <= i < j < |l| ensures l[i] != l[j] { assert l[j] == l[1..][j - 1] && l[j] in l[1..]; }
      }
    }
  }

  /** Everything but that one place. */
  lemma {:induction false} RemoveAt(l: seq<nat>, k: nat)
    requires Distinct(l) && k < |l|
    ensures Remove(l, l[k]) == l[..k] + l[k + 1..]
  {
    if k > 0 {
      assert l[k] == l[1..][k - 1] && l[k] in l[1..];
      RemoveAt(l[1..], k - 1);
      assert l[..k] == [l[0]] + l[1..][..k - 1];
    }
  }

  lemma RemoveFirst(l: seq<nat>)
    requires l != []
    ensures Remove(l, l[0]) == l[1..]
  {
  }
}
