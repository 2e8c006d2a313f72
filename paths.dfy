/** Walks over the topology store and their weights: the vocabulary in which
    the route computation's results are specified. */
module Paths {
  import opened Graphs

  /** A walk along stored links: every node is known and each step follows a
      link of the store. */
  ghost predicate IsPath(g: Graph, p: seq<int>)
  {
    && |p| >= 1
    && (forall i :: 0 <= i < |p| ==> p[i] in g)
    && (forall i :: 0 <= i < |p| - 1 ==> p[i + 1] in g[p[i]])
  }

  ghost predicate PathFrom(g: Graph, p: seq<int>, s: int, d: int)
  {
    IsPath(g, p) && p[0] == s && p[|p| - 1] == d
  }

  /** The sum of the link costs along a walk. */
  ghost function Weight(g: Graph, p: seq<int>): int
    requires IsPath(g, p)
    decreases |p|
  {
    if |p| == 1 then 0
    else
      assert IsPath(g, p[..|p| - 1]);
      Weight(g, p[..|p| - 1]) + g[p[|p| - 2]][p[|p| - 1]]
  }

  ghost predicate Reachable(g: Graph, s: int, d: int)
  {
    exists p :: PathFrom(g, p, s, d)
  }

  /** `c` is at most the weight of every walk from s to d. */
  ghost predicate Shortest(g: Graph, s: int, d: int, c: int)
  {
    forall p :: PathFrom(g, p, s, d) ==> c <= Weight(g, p)
  }

  /** `p` is a walk from s to d of weight c whose first hop is h. */
  ghost predicate RouteVia(g: Graph, s: int, d: int, p: seq<int>, h: int, c: int)
  {
    PathFrom(g, p, s, d) && |p| >= 2 && p[1] == h && Weight(g, p) == c
  }

  /** Some walk from s to d leaves s through h and weighs c. */
  ghost predicate HasRoute(g: Graph, s: int, d: int, h: int, c: int)
  {
    exists p :: RouteVia(g, s, d, p, h, c)
  }

  ghost predicate NonNegative(g: Graph)
  {
    forall a, b :: a in g && b in g[a] ==> g[a][b] >= 0
  }

  /** Every node can reach every node. */
  ghost predicate Connected(g: Graph)
  {
    forall s, d :: s in g && d in g ==> Reachable(g, s, d)
  }

  lemma LinkCost(g: Graph, a: int, b: int)
    requires NonNegative(g) && a in g && b in g[a]
    ensures g[a][b] >= 0
  {
  }

  lemma SimpleIsNonNegative(g: Graph)
    requires Simple(g)
    ensures NonNegative(g)
  {
  }

  /** A known node reaches itself by the one-node walk. */
  lemma ReachableSelf(g: Graph, s: int)
    requires s in g
    ensures Reachable(g, s, s)
  {
    assert PathFrom(g, [s], s, s);
  }

  /** Extending a walk by one link adds that link's cost. */
  lemma PathExtend(g: Graph, p: seq<int>, w: int)
    requires IsPath(g, p) && w in g && w in g[p[|p| - 1]]
    ensures IsPath(g, p + [w])
    ensures Weight(g, p + [w]) == Weight(g, p) + g[p[|p| - 1]][w]
  {
    var q := p + [w];
    assert q[..|q| - 1] == p;
  }

  /** Every prefix of a walk is a walk, and with non-negative costs it weighs
      no more than the whole walk. */
  lemma {:induction false} PathPrefix(g: Graph, p: seq<int>, k: nat)
    requires IsPath(g, p) && 1 <= k <= |p|
    ensures IsPath(g, p[..k])
    ensures NonNegative(g) ==> Weight(g, p[..k]) <= Weight(g, p)
    decreases |p|
  {
    if k < |p| {
      var q := p[..|p| - 1];
      assert IsPath(g, q);
      PathPrefix(g, q, k);
      assert q[..k] == p[..k];
      assert Weight(g, p) == Weight(g, q) + g[p[|p| - 2]][p[|p| - 1]];
      assert p[|p| - 2] in g && p[|p| - 1] in g[p[|p| - 2]];
      if NonNegative(g) { LinkCost(g, p[|p| - 2], p[|p| - 1]); }
    } else {
      assert p[..k] == p;
    }
  }

  lemma {:induction false} WeightNonNegative(g: Graph, p: seq<int>)
    requires IsPath(g, p) && NonNegative(g)
    ensures Weight(g, p) >= 0
    decreases |p|
  {
    if |p| > 1 {
      assert IsPath(g, p[..|p| - 1]);
      WeightNonNegative(g, p[..|p| - 1]);
      assert p[|p| - 2] in g && p[|p| - 1] in g[p[|p| - 2]];
      LinkCost(g, p[|p| - 2], p[|p| - 1]);
    }
  }

  /** With non-negative costs a walk weighs at least its first link. */
  lemma FirstLinkBound(g: Graph, p: seq<int>)
    requires IsPath(g, p) && |p| >= 2 && NonNegative(g)
    ensures Weight(g, p) >= g[p[0]][p[1]]
  {
    PathPrefix(g, p, 2);
    var q := p[..2];
    assert q[..1] == [p[0]];
  }

  /** A walk that starts inside `v` and ends outside it has a step from a node
      of `v` to a node outside it. */
  lemma {:induction false} ExitStep(g: Graph, p: seq<int>, v: set<int>) returns (j: nat)
    requires IsPath(g, p) && p[0] in v && p[|p| - 1] !in v
    ensures 1 <= j < |p| && p[j - 1] in v && p[j] !in v
    decreases |p|
  {
    if p[|p| - 2] in v {
      j := |p| - 1;
    } else {
      var q := p[..|p| - 1];
      assert IsPath(g, q);
      j := ExitStep(g, q, v);
    }
  }

  /** A potential that no link can lower by more than its cost bounds the
      weight of every walk from below (the dual certificate of a shortest
      distance). */
  ghost predicate Feasible(g: Graph, pot: map<int, int>)
  {
    && g.Keys <= pot.Keys
    && forall a, b :: a in g && b in g[a] ==> b in pot && pot[b] <= pot[a] + g[a][b]
  }

  lemma FeasibleLink(g: Graph, pot: map<int, int>, a: int, b: int)
    requires Feasible(g, pot) && a in g && b in g[a]
    ensures a in pot && b in pot && pot[b] <= pot[a] + g[a][b]
  {
  }

  lemma {:induction false} PotentialBound(g: Graph, pot: map<int, int>, p: seq<int>)
    requires IsPath(g, p) && Feasible(g, pot)
    ensures pot[p[|p| - 1]] - pot[p[0]] <= Weight(g, p)
    decreases |p|
  {
    if |p| > 1 {
      var q := p[..|p| - 1];
      assert IsPath(g, q);
      PotentialBound(g, pot, q);
      assert p[|p| - 2] in g && p[|p| - 1] in g[p[|p| - 2]];
      FeasibleLink(g, pot, p[|p| - 2], p[|p| - 1]);
      assert Weight(g, p) == Weight(g, q) + g[p[|p| - 2]][p[|p| - 1]];
    }
  }
}
