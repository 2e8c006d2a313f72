/** The per-source route computation of `forwarding_table`
    (DistanceVector.py:49-85): seed the direct-neighbour costs, then repeatedly
    visit the cheapest unvisited node and relax its links, each improved node
    inheriting the first hop of the node it was reached through. */
module RouteSearch {
  import opened Sequences
  import opened Graphs
  import opened Paths

  datatype Option<T> = None | Some(value: T)

  /** A path cost that may be infinite (the source's `float('inf')`). */
  datatype Cost = Fin(n: int) | Inf

  /** Strict `<` on costs, where every finite cost is below infinity. */
  predicate Below(a: Cost, b: Cost)
  {
    a.Fin? && (b.Inf? || a.n < b.n)
  }

  /** The insertion order of the `cost` defaultdict: the source itself, then
      its neighbours as the seed loop writes them, then the remaining nodes as
      the first selection scan reads them. */
  function KeyOrder(t: Topology, src: int): seq<int>
  {
    Extend(Extend([src], if src in t.nbrs then t.nbrs[src] else []), t.order)
  }

  /** The relaxation through `m` lowers the cost of `w` (strict `<`). */
  predicate Improves(g: Graph, m: int, visited: set<int>, cost: map<int, Cost>, w: int)
    requires m in g && m in cost && cost[m].Fin?
  {
    w in g[m] && w !in visited && w in cost && Below(Fin(cost[m].n + g[m][w]), cost[w])
  }

  /** What relaxing the links of `m` to the nodes of `done` does to the three
      tables: an improved node gets the new cost, the first hop of `m` and
      `m`'s walk extended by itself; nothing else changes, so an equal cost
      never replaces a next hop. */
  ghost predicate RelaxedOn(g: Graph, m: int, visited: set<int>, done: set<int>,
                            cost0: map<int, Cost>, hop0: map<int, int>, route0: map<int, seq<int>>,
                            cost: map<int, Cost>, hop: map<int, int>, route: map<int, seq<int>>)
    requires m in g && m in cost0 && cost0[m].Fin? && m in hop0 && m in route0
  {
    && cost.Keys == cost0.Keys
    && (forall w :: w in cost ==>
          cost[w] == if w in done && Improves(g, m, visited, cost0, w) then Fin(cost0[m].n + g[m][w]) else cost0[w])
    && (forall w :: w in hop <==> w in hop0 || (w in done && Improves(g, m, visited, cost0, w)))
    && (forall w :: w in hop ==>
          hop[w] == if w in done && Improves(g, m, visited, cost0, w) then hop0[m] else hop0[w])
    && (forall w :: w in route <==> w in route0 || (w in done && Improves(g, m, visited, cost0, w)))
    && (forall w :: w in route ==>
          route[w] == if w in done && Improves(g, m, visited, cost0, w) then route0[m] + [w] else route0[w])
  }

  /** A whole relaxation pass: every link of `m` has been relaxed. */
  ghost predicate Relaxed(g: Graph, m: int, visited: set<int>,
                          cost0: map<int, Cost>, hop0: map<int, int>, route0: map<int, seq<int>>,
                          cost: map<int, Cost>, hop: map<int, int>, route: map<int, seq<int>>)
    requires m in g && m in cost0 && cost0[m].Fin? && m in hop0 && m in route0
  {
    RelaxedOn(g, m, visited, g[m].Keys, cost0, hop0, route0, cost, hop, route)
  }

  /** Bookkeeping of the search: the source is visited, visited nodes are
      known, and `keys` lists the cost entries once each. */
  ghost predicate Known(g: Graph, src: int, visited: set<int>, cost: map<int, Cost>, keys: seq<int>)
  {
    && src in visited && visited <= g.Keys && visited <= cost.Keys
    && cost.Keys == Elems(keys) && cost.Keys <= g.Keys && Distinct(keys)
  }

  /** Every finite cost other than the source's has a next hop, and the next
      hop starts a walk of exactly that cost (the ghost `route`). */
  ghost predicate Witnessed(g: Graph, src: int, cost: map<int, Cost>, hop: map<int, int>, route: map<int, seq<int>>)
  {
    && hop.Keys <= cost.Keys
    && (forall v :: v in cost && v != src ==> (cost[v].Fin? <==> v in hop))
    && (forall v :: v in hop && v != src ==>
          v in route && cost[v].Fin? && RouteVia(g, src, v, route[v], hop[v], cost[v].n))
  }

  /** Visited nodes have finite costs, and so has every unvisited neighbour
      of a visited node. */
  ghost predicate Closed(g: Graph, visited: set<int>, cost: map<int, Cost>)
  {
    && (forall v :: v in visited ==> v in cost && cost[v].Fin?)
    && (forall p, w :: p in visited && p in g && w in g[p] && w !in visited ==> w in cost && cost[w].Fin?)
  }

  lemma ClosedLink(g: Graph, visited: set<int>, cost: map<int, Cost>, a: int, b: int)
    requires Closed(g, visited, cost)
    requires a in visited && a in g && b in g[a] && b !in visited
    ensures b in g[a] && b in cost && cost[b].Fin?
  {
  }

  /** The distance the search has settled for a visited node: the source
      counts as 0 (a self-loop may have overwritten its cost entry, which is
      never read again once the source is visited). */
  function Base(src: int, cost: map<int, Cost>, p: int): int
    requires p in cost && cost[p].Fin?
  {
    if p == src then 0 else cost[p].n
  }

  /** The Dijkstra invariant: visited costs other than the source's are
      shortest, and an unvisited neighbour of a visited node costs at most
      the walk through it. */
  ghost predicate Settled(g: Graph, src: int, visited: set<int>, cost: map<int, Cost>)
    requires Closed(g, visited, cost)
  {
    && (forall v :: v in visited && v != src ==> Shortest(g, src, v, cost[v].n))
    && (forall p, w :: p in visited && p in g && w in g[p] && w !in visited ==>
          cost[w].n <= Base(src, cost, p) + g[p][w])
  }

  ghost predicate Frontier(g: Graph, src: int, visited: set<int>, cost: map<int, Cost>, keys: seq<int>,
                           hop: map<int, int>, route: map<int, seq<int>>)
  {
    && Known(g, src, visited, cost, keys)
    && Witnessed(g, src, cost, hop, route)
    && Closed(g, visited, cost)
    && (NonNegative(g) ==> Settled(g, src, visited, cost))
  }

  /** Lines 49-57: the source costs 0, each neighbour its link cost and is its
      own next hop (a self-loop overwrites the source's 0). */
  method Seed(t: Topology, src: int)
      returns (cost: map<int, Cost>, hop: map<int, int>, keys: seq<int>)
    requires src in t.graph && src in t.nbrs && Elems(t.nbrs[src]) == t.graph[src].Keys
    ensures keys == Extend([src], t.nbrs[src])
    ensures Distinct(keys)
    ensures cost.Keys == t.graph[src].Keys + {src}
    ensures Elems(keys) == cost.Keys
    ensures forall w :: w in t.graph[src] ==> cost[w] == Fin(t.graph[src][w])
    ensures src !in t.graph[src] ==> cost[src] == Fin(0)
    ensures hop.Keys == t.graph[src].Keys && forall w :: w in hop ==> hop[w] == w
  {
    var ns, links := t.nbrs[src], t.graph[src];
    cost := map[src := Fin(0)];
    hop := map[];
    keys := [src];
    for i := 0 to |ns|
      invariant keys == Extend([src], ns[..i])
      invariant cost.Keys == hop.Keys + {src}
      invariant hop.Keys <= links.Keys && forall j :: 0 <= j < i ==> ns[j] in hop
      invariant forall w :: w in hop ==> hop[w] == w
      invariant forall w :: w in hop ==> cost[w] == Fin(links[w])
      invariant src !in hop ==> cost[src] == Fin(0)
    {
      var w := ns[i];
      SeedKey(src, ns, i, keys);
      // assigning a key the dict does not hold yet appends it to the key order
      if w !in keys {
        keys := keys + [w];
      }
      cost := cost[w := Fin(links[w])];
      hop := hop[w := w];
    }
    assert ns[..|ns|] == ns;
    AllListed(ns, hop.Keys, links.Keys);
    ExtendDistinct([src], ns);
    ExtendElems([src], ns);
  }

  /** One read of the seed loop extends the key order as insert-on-miss does. */
  lemma SeedKey(src: int, ns: seq<int>, i: int, keys: seq<int>)
    requires 0 <= i < |ns| && keys == Extend([src], ns[..i])
    ensures (if ns[i] in keys then keys else keys + [ns[i]]) == Extend([src], ns[..i + 1])
    ensures ns[i] in Elems(ns)
  {
    assert ns[..i + 1] == ns[..i] + [ns[i]];
    ExtendLast([src], ns[..i], ns[i]);
  }

  /** A key set that holds every element of `ns` and lies within its
      elements is exactly its elements. */
  lemma AllListed(ns: seq<int>, have: set<int>, all: set<int>)
    requires Elems(ns) == all && have <= all && forall j :: 0 <= j < |ns| ==> ns[j] in have
    ensures have == all
  {
    forall w | w in all ensures w in have {
      var j :| 0 <= j < |ns| && ns[j] == w;
    }
  }

  /** Reading the `cost` defaultdict: a missing entry reads as infinity. */
  function Get(cost: map<int, Cost>, d: int): Cost
  {
    if d in cost then cost[d] else Inf
  }

  /** The node a scan of `order` keeps (lines 65-71): the last one that is
      unvisited and strictly cheaper than the one kept so far, starting from
      none at infinity. */
  function FirstMin(order: seq<int>, visited: set<int>, cost: map<int, Cost>): Option<int>
    decreases |order|
  {
    if order == [] then None
    else
      var m := FirstMin(order[..|order| - 1], visited, cost);
      var d := order[|order| - 1];
      if d !in visited && Below(Get(cost, d), if m.Some? then Get(cost, m.value) else Inf) then Some(d) else m
  }

  /** The scan keeps a least unvisited node, and keeps none exactly when
      every unvisited node reads as infinity. */
  lemma {:induction false} FirstMinSpec(order: seq<int>, visited: set<int>, cost: map<int, Cost>)
    ensures FirstMin(order, visited, cost).None? <==>
      forall d :: d in order && d !in visited ==> Get(cost, d) == Inf
    ensures FirstMin(order, visited, cost).Some? ==>
      var m := FirstMin(order, visited, cost).value;
      m in order && m !in visited && Get(cost, m).Fin? &&
      forall d :: d in order && d !in visited ==> !Below(Get(cost, d), Get(cost, m))
    decreases |order|
  {
    if order != [] {
      var p := order[..|order| - 1];
      var d := order[|order| - 1];
      assert order == p + [d];
      FirstMinSpec(p, visited, cost);
    }
  }

  /** Ties go to the earliest node: every unvisited node that costs as much as
      the kept one comes no earlier in the scan (strict `<` at line 69). */
  lemma {:induction false} FirstMinEarliest(order: seq<int>, visited: set<int>, cost: map<int, Cost>, j: int)
    requires 0 <= j < |order| && order[j] !in visited
    requires FirstMin(order, visited, cost).Some?
    requires Get(cost, order[j]) == Get(cost, FirstMin(order, visited, cost).value)
    ensures FirstMin(order, visited, cost).value in order[..j + 1]
    decreases |order|
  {
    var p := order[..|order| - 1];
    var d := order[|order| - 1];
    var m := FirstMin(p, visited, cost);
    FirstMinSpec(p, visited, cost);
    if j < |order| - 1 {
      assert p[j] == order[j] && p[j] in p;
      assert p[..j + 1] == order[..j + 1];
      FirstMinSpec(order, visited, cost);
      assert m.Some?;
      FirstMinEarliest(p, visited, cost, j);
    } else {
      assert order[..j + 1] == order;
      FirstMinSpec(order, visited, cost);
    }
  }

  /** Lines 65-71: one scan over the node order. Reading `cost[dest]` for an
      unvisited node inserts infinity for a node without an entry. */
  method SelectMin(order: seq<int>, visited: set<int>, cost0: map<int, Cost>, keys0: seq<int>)
      returns (m: Option<int>, cost: map<int, Cost>, keys: seq<int>)
    requires cost0.Keys == Elems(keys0) && visited <= cost0.Keys
    ensures m == FirstMin(order, visited, cost0)
    ensures keys == Extend(keys0, order)
    ensures cost.Keys == cost0.Keys + Elems(order)
    ensures Elems(keys) == cost.Keys
    ensures forall d :: d in cost ==> cost[d] == Get(cost0, d)
  {
    m := None;
    var minCost := Inf;
    cost, keys := cost0, keys0;
    for i := 0 to |order|
      invariant m == FirstMin(order[..i], visited, cost0)
      invariant minCost == if m.Some? then Get(cost0, m.value) else Inf
      invariant keys == Extend(keys0, order[..i])
      invariant Elems(keys) == cost.Keys && cost0.Keys <= cost.Keys
      invariant forall d :: d in cost ==> cost[d] == Get(cost0, d)
    {
      var dest := order[i];
      assert order[..i + 1] == order[..i] + [dest];
      assert order[..i + 1][..i] == order[..i];
      ExtendLast(keys0, order[..i], dest);
      if dest !in visited {
        if dest !in cost {
          ElemsAppend(keys, [dest]);
          cost := cost[dest := Inf];
          keys := keys + [dest];
        }
        if Below(cost[dest], minCost) {
          m := Some(dest);
          minCost := cost[dest];
        }
      }
    }
    assert order[..|order|] == order;
    ExtendElems(keys0, order);
  }

  /** Lines 79-85: relax the links of the node just visited, in the order of
      its neighbour dict, skipping visited nodes. */
  method Relax(g: Graph, ns: seq<int>, m: int, visited: set<int>,
               cost0: map<int, Cost>, hop0: map<int, int>, ghost route0: map<int, seq<int>>)
      returns (cost: map<int, Cost>, hop: map<int, int>, ghost route: map<int, seq<int>>)
    requires m in g && Distinct(ns) && Elems(ns) == g[m].Keys && g[m].Keys <= cost0.Keys
    requires m in visited && m in cost0 && cost0[m].Fin? && m in hop0 && m in route0
    ensures Relaxed(g, m, visited, cost0, hop0, route0, cost, hop, route)
  {
    cost, hop, route := cost0, hop0, route0;
    ghost var done: set<int> := {};
    for i := 0 to |ns|
      invariant done == Elems(ns[..i])
      invariant RelaxedOn(g, m, visited, done, cost0, hop0, route0, cost, hop, route)
    {
      var w := ns[i];
      assert ns[..i + 1] == ns[..i] + [w];
      ElemsAppend(ns[..i], [w]);
      assert w !in done by {
        forall j | 0 <= j < i ensures ns[..i][j] != w { assert ns[j] != ns[i]; }
      }
      assert w in Elems(ns);
      RelaxStep(g, m, visited, done, w, cost0, hop0, route0, cost, hop, route);
      if w !in visited {
        var nextCost := g[m][w];
        if Below(Fin(cost[m].n + nextCost), cost[w]) {
          cost := cost[w := Fin(cost[m].n + nextCost)];
          hop := hop[w := hop[m]];
          route := route[w := route[m] + [w]];
        }
      }
      done := done + {w};
    }
    assert ns[..|ns|] == ns;
  }

  /** Relaxing one more link `m`-`w`: before it, `m` and `w` still hold their
      entries from before the pass, and afterwards `w` is relaxed too. */
  lemma RelaxStep(g: Graph, m: int, visited: set<int>, done: set<int>, w: int,
                  cost0: map<int, Cost>, hop0: map<int, int>, route0: map<int, seq<int>>,
                  cost: map<int, Cost>, hop: map<int, int>, route: map<int, seq<int>>)
    requires m in g && m in cost0 && cost0[m].Fin? && m in hop0 && m in route0 && m in visited
    requires RelaxedOn(g, m, visited, done, cost0, hop0, route0, cost, hop, route)
    requires w !in done && w in g[m] && w in cost0
    ensures cost[m] == cost0[m] && cost[w] == cost0[w] && m in hop && hop[m] == hop0[m]
    ensures m in route && route[m] == route0[m]
    ensures Improves(g, m, visited, cost0, w) <==> w !in visited && Below(Fin(cost[m].n + g[m][w]), cost[w])
    ensures var imp := Improves(g, m, visited, cost0, w);
      RelaxedOn(g, m, visited, done + {w}, cost0, hop0, route0,
                if imp then cost[w := Fin(cost[m].n + g[m][w])] else cost,
                if imp then hop[w := hop[m]] else hop,
                if imp then route[w := route[m] + [w]] else route)
  {
  }

  /** The scan only reads costs, so it keeps the same node under two cost
      maps that read alike on the scanned nodes. */
  lemma {:induction false} FirstMinSame(order: seq<int>, visited: set<int>, c1: map<int, Cost>, c2: map<int, Cost>)
    requires forall d :: d in order ==> Get(c1, d) == Get(c2, d)
    ensures FirstMin(order, visited, c1) == FirstMin(order, visited, c2)
    decreases |order|
  {
    if order != [] {
      var p := order[..|order| - 1];
      assert forall d :: d in p ==> d in order;
      FirstMinSame(p, visited, c1, c2);
      FirstMinSpec(p, visited, c1);
    }
  }

  /** The seed tables are consistent: each neighbour is reached by its own
      link and is its own next hop. */
  lemma SeedWitnessed(g: Graph, src: int, cost: map<int, Cost>, hop: map<int, int>, route: map<int, seq<int>>)
    requires src in g && g[src].Keys <= g.Keys && cost.Keys == g[src].Keys + {src}
    requires forall w :: w in g[src] ==> cost[w] == Fin(g[src][w])
    requires hop.Keys == g[src].Keys && forall w :: w in hop ==> hop[w] == w
    requires route == map w | w in hop :: [src, w]
    ensures Witnessed(g, src, cost, hop, route)
  {
    forall v | v in hop && v != src
      ensures v in route && cost[v].Fin? && RouteVia(g, src, v, route[v], hop[v], cost[v].n)
    {
      var p := [src, v];
      assert p[..1] == [src];
      assert IsPath(g, p);
    }
  }

  /** The state after the seed loop satisfies the search invariant. */
  lemma SeedFrontier(t: Topology, src: int, cost: map<int, Cost>, hop: map<int, int>, keys: seq<int>,
                     route: map<int, seq<int>>)
    requires WellFormed(t) && src in t.graph
    requires Distinct(keys) && cost.Keys == t.graph[src].Keys + {src} && Elems(keys) == cost.Keys
    requires forall w :: w in t.graph[src] ==> cost[w] == Fin(t.graph[src][w])
    requires src !in t.graph[src] ==> cost[src] == Fin(0)
    requires hop.Keys == t.graph[src].Keys && forall w :: w in hop ==> hop[w] == w
    requires route == map w | w in hop :: [src, w]
    ensures Frontier(t.graph, src, {src}, cost, keys, hop, route)
  {
    var g := t.graph;
    RowKeys(g, src);
    assert Known(g, src, {src}, cost, keys);
    SeedWitnessed(g, src, cost, hop, route);
    assert src in cost && cost[src].Fin?;
    SeedClosed(g, src, cost);
    FrontierIntro(g, src, {src}, cost, keys, hop, route);
  }

  /** The seeded costs are finite on the source and its neighbours, and each
      neighbour costs its direct link. */
  lemma SeedClosed(g: Graph, src: int, cost: map<int, Cost>)
    requires src in g && src in cost && cost[src].Fin?
    requires forall w :: w in g[src] ==> w in cost && cost[w] == Fin(g[src][w])
    ensures Closed(g, {src}, cost) && Settled(g, src, {src}, cost)
  {
  }

  lemma FrontierIntro(g: Graph, src: int, visited: set<int>, cost: map<int, Cost>, keys: seq<int>,
                      hop: map<int, int>, route: map<int, seq<int>>)
    requires Known(g, src, visited, cost, keys) && Witnessed(g, src, cost, hop, route)
    requires Closed(g, visited, cost) && Settled(g, src, visited, cost)
    ensures Frontier(g, src, visited, cost, keys, hop, route)
  {
  }

  /** `cost` holds what `cost0` holds and infinity for the added nodes. */
  ghost predicate Grown(cost0: map<int, Cost>, cost: map<int, Cost>)
  {
    cost0.Keys <= cost.Keys && forall d :: d in cost ==> cost[d] == Get(cost0, d)
  }

  lemma ScanWitnessed(g: Graph, src: int, cost0: map<int, Cost>, cost: map<int, Cost>,
                      hop: map<int, int>, route: map<int, seq<int>>)
    requires Witnessed(g, src, cost0, hop, route) && Grown(cost0, cost)
    ensures Witnessed(g, src, cost, hop, route)
  {
    forall v | v in hop && v != src
      ensures v in route && cost[v].Fin? && RouteVia(g, src, v, route[v], hop[v], cost[v].n)
    {
      assert cost[v] == cost0[v];
    }
  }

  lemma ScanClosed(g: Graph, src: int, visited: set<int>, cost0: map<int, Cost>, cost: map<int, Cost>)
    requires Closed(g, visited, cost0) && Grown(cost0, cost)
    ensures Closed(g, visited, cost)
    ensures Settled(g, src, visited, cost0) ==> Settled(g, src, visited, cost)
  {
  }

  /** A scan adds infinite entries only, so the invariant survives it and
      afterwards every node has a cost entry. */
  lemma ScanFrontier(t: Topology, src: int, visited: set<int>, cost0: map<int, Cost>, keys0: seq<int>,
                     hop: map<int, int>, route: map<int, seq<int>>, cost: map<int, Cost>, keys: seq<int>)
    requires Ordered(t)
    requires Frontier(t.graph, src, visited, cost0, keys0, hop, route)
    requires keys == Extend(keys0, t.order) && cost.Keys == cost0.Keys + Elems(t.order) && Elems(keys) == cost.Keys
    requires forall d :: d in cost ==> cost[d] == Get(cost0, d)
    ensures Frontier(t.graph, src, visited, cost, keys, hop, route)
    ensures cost.Keys == t.graph.Keys && Extend(keys, t.order) == keys
  {
    ExtendDistinct(keys0, t.order);
    ExtendNoop(keys, t.order);
    ScanWitnessed(t.graph, src, cost0, cost, hop, route);
    ScanClosed(t.graph, src, visited, cost0, cost);
  }

  /** The step by which a walk from the source first leaves the visited set
      already costs at least the tentative cost of the node it enters. */
  lemma ExitCost(g: Graph, src: int, visited: set<int>, cost: map<int, Cost>, p: seq<int>, d: int)
      returns (w: int)
    requires src in visited && Closed(g, visited, cost) && NonNegative(g) && Settled(g, src, visited, cost)
    requires PathFrom(g, p, src, d) && d !in visited
    ensures w in g && w !in visited && w in cost && cost[w].Fin? && cost[w].n <= Weight(g, p)
  {
    var j := ExitStep(g, p, visited);
    PathPrefix(g, p, j + 1);
    PathPrefix(g, p, j);
    var q := p[..j + 1];
    assert q[..|q| - 1] == p[..j];
    assert q[|q| - 2] == p[j - 1] && q[|q| - 1] == p[j];
    assert Weight(g, q) == Weight(g, p[..j]) + g[p[j - 1]][p[j]];
    assert PathFrom(g, p[..j], src, p[j - 1]);
    assert p[j - 1] in g && p[j] in g[p[j - 1]];
    if p[j - 1] == src {
      WeightNonNegative(g, p[..j]);
    }
    assert Base(src, cost, p[j - 1]) <= Weight(g, p[..j]);
    assert cost[p[j]].n <= Base(src, cost, p[j - 1]) + g[p[j - 1]][p[j]];
    w := p[j];
  }

  /** Dijkstra's step: with no negative link cost (self-loops allowed), the
      cheapest unvisited node's cost is already the least weight of any walk
      to it. */
  lemma SelectedShortest(g: Graph, src: int, visited: set<int>, cost: map<int, Cost>, m: int)
    requires src in visited && Closed(g, visited, cost) && NonNegative(g) && Settled(g, src, visited, cost)
    requires m in cost && m !in visited && cost[m].Fin?
    requires forall d :: d in g && d !in visited ==> !Below(Get(cost, d), cost[m])
    ensures Shortest(g, src, m, cost[m].n)
  {
    forall p | PathFrom(g, p, src, m) ensures cost[m].n <= Weight(g, p) {
      var w := ExitCost(g, src, visited, cost, p, m);
      assert !Below(Get(cost, w), cost[m]);
    }
  }

  lemma RelaxWitnessed(g: Graph, src: int, visited: set<int>, m: int,
                       cost0: map<int, Cost>, hop0: map<int, int>, route0: map<int, seq<int>>,
                       cost: map<int, Cost>, hop: map<int, int>, route: map<int, seq<int>>)
    requires m in g && m != src && m in cost0 && cost0[m].Fin? && m in hop0 && m in route0
    requires Witnessed(g, src, cost0, hop0, route0) && cost0.Keys <= g.Keys
    requires Relaxed(g, m, visited, cost0, hop0, route0, cost, hop, route)
    ensures Witnessed(g, src, cost, hop, route)
  {
    forall v | v in hop && v != src
      ensures v in route && cost[v].Fin? && RouteVia(g, src, v, route[v], hop[v], cost[v].n)
    {
      if Improves(g, m, visited, cost0, v) {
        PathExtend(g, route0[m], v);
        assert (route0[m] + [v])[1] == route0[m][1];
      }
    }
  }

  lemma RelaxClosed(g: Graph, visited: set<int>, m: int,
                    cost0: map<int, Cost>, hop0: map<int, int>, route0: map<int, seq<int>>,
                    cost: map<int, Cost>, hop: map<int, int>, route: map<int, seq<int>>)
    requires m in g && m in cost0 && cost0[m].Fin? && m in hop0 && m in route0 && g[m].Keys <= cost0.Keys
    requires Closed(g, visited, cost0)
    requires Relaxed(g, m, visited + {m}, cost0, hop0, route0, cost, hop, route)
    ensures Closed(g, visited + {m}, cost)
  {
    forall p, w | p in visited + {m} && p in g && w in g[p] && w !in visited + {m}
      ensures w in cost && cost[w].Fin?
    {
      if p == m && !Improves(g, m, visited + {m}, cost0, w) {
        assert !Below(Fin(cost0[m].n + g[m][w]), cost0[w]);
      }
    }
  }

  lemma RelaxSettled(g: Graph, src: int, visited: set<int>, m: int,
                     cost0: map<int, Cost>, hop0: map<int, int>, route0: map<int, seq<int>>,
                     cost: map<int, Cost>, hop: map<int, int>, route: map<int, seq<int>>)
    requires m in g && m in cost0 && cost0[m].Fin? && m in hop0 && m in route0 && g[m].Keys <= cost0.Keys
    requires m != src && Closed(g, visited, cost0) && Settled(g, src, visited, cost0)
    requires Shortest(g, src, m, cost0[m].n)
    requires Relaxed(g, m, visited + {m}, cost0, hop0, route0, cost, hop, route)
    requires Closed(g, visited + {m}, cost)
    ensures Settled(g, src, visited + {m}, cost)
  {
    forall p, w | p in visited + {m} && p in g && w in g[p] && w !in visited + {m}
      ensures cost[w].n <= Base(src, cost, p) + g[p][w]
    {
      if p == m {
        if !Improves(g, m, visited + {m}, cost0, w) {
          assert !Below(Fin(cost0[m].n + g[m][w]), cost0[w]);
        }
      } else {
        assert cost[p] == cost0[p];
        assert cost0[w].n <= Base(src, cost0, p) + g[p][w];
      }
    }
  }

  /** Visiting one more known node keeps the bookkeeping. */
  lemma KnownVisit(g: Graph, src: int, visited: set<int>, m: int, cost0: map<int, Cost>,
                   cost: map<int, Cost>, keys: seq<int>)
    requires Known(g, src, visited, cost0, keys) && m in cost0 && cost.Keys == cost0.Keys
    ensures Known(g, src, visited + {m}, cost, keys)
  {
  }

  /** Visiting `m` and relaxing its links keeps the search invariant. */
  lemma RelaxFrontier(t: Topology, src: int, visited: set<int>, m: int, keys: seq<int>,
                      cost0: map<int, Cost>, hop0: map<int, int>, route0: map<int, seq<int>>,
                      cost: map<int, Cost>, hop: map<int, int>, route: map<int, seq<int>>)
    requires WellFormed(t)
    requires Frontier(t.graph, src, visited, cost0, keys, hop0, route0) && cost0.Keys == t.graph.Keys
    requires m in t.graph && m !in visited && cost0[m].Fin?
    requires NonNegative(t.graph) ==> Shortest(t.graph, src, m, cost0[m].n)
    requires m in hop0 && m in route0
    requires Relaxed(t.graph, m, visited + {m}, cost0, hop0, route0, cost, hop, route)
    ensures Frontier(t.graph, src, visited + {m}, cost, keys, hop, route)
  {
    var g := t.graph;
    RowKeys(g, m);
    KnownVisit(g, src, visited, m, cost0, cost, keys);
    RelaxWitnessed(g, src, visited + {m}, m, cost0, hop0, route0, cost, hop, route);
    RelaxClosed(g, visited, m, cost0, hop0, route0, cost, hop, route);
    if NonNegative(g) {
      RelaxSettled(g, src, visited, m, cost0, hop0, route0, cost, hop, route);
    }
  }

  /** A walk from the visited set to a node outside it passes an unvisited
      node of finite cost. */
  lemma Escape(g: Graph, src: int, visited: set<int>, cost: map<int, Cost>, p: seq<int>, d: int)
      returns (w: int)
    requires src in visited && Closed(g, visited, cost)
    requires PathFrom(g, p, src, d) && d !in visited
    ensures w in g && w !in visited && w in cost && cost[w].Fin?
  {
    var j := ExitStep(g, p, visited);
    assert p[j - 1] in g && p[j] in g[p[j - 1]];
    w := p[j];
    ClosedLink(g, visited, cost, p[j - 1], w);
  }

  lemma {:induction false} SubsetSize(a: set<int>, b: set<int>)
    requires a <= b
    ensures |a| <= |b|
    decreases |a|
  {
    if y :| y in a {
      SubsetSize(a - {y}, b - {y});
    } else {
      assert forall y :: y in a <==> y in {};
      assert a == {};
    }
  }

  lemma AddSize(a: set<int>, x: int)
    requires x !in a
    ensures |a + {x}| == |a| + 1 && a < a + {x}
  {
  }

  /** A subset at least as large as the whole set is the whole set. */
  lemma SubsetFull(a: set<int>, b: set<int>)
    requires a <= b && |a| >= |b|
    ensures a == b
  {
    if x :| x in b && x !in a {
      SubsetSize(a, b - {x});
    } else {
      assert forall y :: y in a <==> y in b;
    }
  }

  /** What the table write reads from the search for `src`: the cost dict
      holds every node, in the key order of the seed loop then the first
      scan; a node other than the source has a finite cost exactly when it is
      reachable, and then a next hop that is a neighbour of the source and
      starts a walk of that cost, a shortest one when no link costs less than 0;
      no neighbour costs more than its direct link; a self-loop overwrites
      the source's own 0. */
  ghost predicate Searched(t: Topology, src: int, cost: map<int, Cost>, hop: map<int, int>, keys: seq<int>)
    requires src in t.graph
  {
    && keys == KeyOrder(t, src) && Distinct(keys)
    && cost.Keys == t.graph.Keys && Elems(keys) == cost.Keys
    && cost[src] == (if src in t.graph[src] then Fin(t.graph[src][src]) else Fin(0))
    && (forall d :: d in t.graph && d != src ==> (cost[d].Fin? <==> Reachable(t.graph, src, d)))
    && (forall d :: d in t.graph && d != src ==> (d in hop <==> cost[d].Fin?))
    && (forall d :: d in hop && d != src ==>
          d in cost && cost[d].Fin? && hop[d] in t.graph[src] && HasRoute(t.graph, src, d, hop[d], cost[d].n))
    && (NonNegative(t.graph) ==> forall d :: d in cost && d != src && cost[d].Fin? ==> Shortest(t.graph, src, d, cost[d].n))
    && (forall d :: d in t.graph[src] && d != src ==> d in cost && cost[d].Fin? && cost[d].n <= t.graph[src][d])
  }

  /** The search invariant at the end of the loop gives the properties the
      tables are built from. */
  lemma FinishRoute(t: Topology, src: int, visited: set<int>, cost: map<int, Cost>, keys: seq<int>,
                    hop: map<int, int>, route: map<int, seq<int>>)
    requires WellFormed(t) && src in t.graph
    requires Frontier(t.graph, src, visited, cost, keys, hop, route)
    requires Extend(keys, t.order) == KeyOrder(t, src) && t.graph.Keys <= cost.Keys
    requires forall d :: d in t.graph && d !in visited ==> cost[d] == Inf
    requires cost[src] == (if src in t.graph[src] then Fin(t.graph[src][src]) else Fin(0))
    requires SeedBound(t.graph, src, cost)
    ensures Searched(t, src, cost, hop, keys)
  {
    var g := t.graph;
    ExtendNoop(keys, t.order);
    forall d | d in g && d != src ensures cost[d].Fin? <==> Reachable(g, src, d) {
      if cost[d].Fin? {
        assert PathFrom(g, route[d], src, d);
      } else if Reachable(g, src, d) {
        var p :| PathFrom(g, p, src, d);
        var w := Escape(g, src, visited, cost, p, d);
      }
    }
    forall d | d in hop && d != src
      ensures cost[d].Fin? && hop[d] in g[src] && HasRoute(g, src, d, hop[d], cost[d].n)
    {
      var p := route[d];
      assert p[0] == src && p[1] == hop[d] && p[1] in g[p[0]];
    }
  }

  /** No neighbour of the source costs more than its direct link. */
  ghost predicate SeedBound(g: Graph, src: int, cost: map<int, Cost>)
    requires src in g
  {
    forall w :: w in g[src] && w != src ==> w in cost && cost[w].Fin? && cost[w].n <= g[src][w]
  }

  /** A scan copies every existing cost. */
  lemma ScanSeedBound(g: Graph, src: int, cost0: map<int, Cost>, cost: map<int, Cost>)
    requires src in g && SeedBound(g, src, cost0)
    requires cost0.Keys <= cost.Keys && forall d :: d in cost ==> cost[d] == Get(cost0, d)
    ensures SeedBound(g, src, cost)
  {
  }

  /** Costs only go down in a relaxation pass (strict `<` at line 82). */
  lemma RelaxLowers(g: Graph, src: int, m: int, visited: set<int>,
                    cost0: map<int, Cost>, hop0: map<int, int>, route0: map<int, seq<int>>,
                    cost: map<int, Cost>, hop: map<int, int>, route: map<int, seq<int>>)
    requires src in g && m in g && m in cost0 && cost0[m].Fin? && m in hop0 && m in route0
    requires Relaxed(g, m, visited, cost0, hop0, route0, cost, hop, route)
    requires SeedBound(g, src, cost0)
    ensures SeedBound(g, src, cost)
  {
    forall w | w in g[src] && w != src ensures w in cost && cost[w].Fin? && cost[w].n <= g[src][w] {
      assert w in cost0;
    }
  }

  /** One round of the selection loop (lines 63-85): scan for the cheapest
      unvisited node; stop when there is none, otherwise visit it and relax
      its links. */
  method Round(t: Topology, src: int, visited: set<int>, cost0: map<int, Cost>, hop0: map<int, int>,
               keys0: seq<int>, ghost route0: map<int, seq<int>>)
      returns (stop: bool, visited': set<int>, cost: map<int, Cost>, hop: map<int, int>, keys: seq<int>,
               ghost route: map<int, seq<int>>)
    requires WellFormed(t) && src in t.graph
    requires Frontier(t.graph, src, visited, cost0, keys0, hop0, route0)
    requires Extend(keys0, t.order) == KeyOrder(t, src)
    requires SeedBound(t.graph, src, cost0)
    ensures Frontier(t.graph, src, visited', cost, keys, hop, route)
    ensures Extend(keys, t.order) == KeyOrder(t, src)
    ensures t.graph.Keys == cost.Keys && cost[src] == cost0[src]
    ensures stop ==> visited' == visited && forall d :: d in t.graph && d !in visited ==> cost[d] == Inf
    ensures !stop ==> visited < visited' && |visited'| == |visited| + 1
    ensures SeedBound(t.graph, src, cost)
  {
    var m, cost1, keys1 := SelectMin(t.order, visited, cost0, keys0);
    ScanFrontier(t, src, visited, cost0, keys0, hop0, route0, cost1, keys1);
    ScanSeedBound(t.graph, src, cost0, cost1);
    FirstMinSame(t.order, visited, cost0, cost1);
    FirstMinSpec(t.order, visited, cost1);
    assert cost1[src] == cost0[src];
    if m.None? {
      return true, visited, cost1, hop0, keys1, route0;
    }
    var v := m.value;
    assert v != src && v in cost1 && cost1[v].Fin?;
    if NonNegative(t.graph) {
      SelectedShortest(t.graph, src, visited, cost1, v);
    }
    NbrOrder(t, v);
    visited' := visited + {v};
    AddSize(visited, v);
    cost, hop, route := Relax(t.graph, t.nbrs[v], v, visited', cost1, hop0, route0);
    RelaxFrontier(t, src, visited, v, keys1, cost1, hop0, route0, cost, hop, route);
    RelaxLowers(t.graph, src, v, visited', cost1, hop0, route0, cost, hop, route);
    assert !Improves(t.graph, v, visited', cost1, src);
    return false, visited', cost, hop, keys1, route;
  }

  /** Lines 59-85: the selection loop, from the seeded tables until every
      node is visited or no unvisited node has a finite cost; `rounds`
      counts its iterations, the one whose scan finds nothing and breaks
      included. */
  method Search(t: Topology, src: int, cost0: map<int, Cost>, hop0: map<int, int>, keys0: seq<int>,
                ghost route0: map<int, seq<int>>)
      returns (ghost visited: set<int>, cost: map<int, Cost>, hop: map<int, int>, keys: seq<int>,
               ghost route: map<int, seq<int>>, ghost rounds: nat)
    requires WellFormed(t) && src in t.graph
    requires Frontier(t.graph, src, {src}, cost0, keys0, hop0, route0)
    requires Extend(keys0, t.order) == KeyOrder(t, src)
    requires SeedBound(t.graph, src, cost0)
    ensures Frontier(t.graph, src, visited, cost, keys, hop, route)
    ensures Extend(keys, t.order) == KeyOrder(t, src) && t.graph.Keys <= cost.Keys
    ensures forall d :: d in t.graph && d !in visited ==> cost[d] == Inf
    ensures cost[src] == cost0[src] && SeedBound(t.graph, src, cost)
    ensures rounds <= |t.graph| - 1
  {
    cost, hop, keys, route := cost0, hop0, keys0, route0;
    var vis := {src};
    rounds := 0;
    ghost var stopped := false;
    while |vis| < |t.graph|
      invariant Frontier(t.graph, src, vis, cost, keys, hop, route)
      invariant Extend(keys, t.order) == KeyOrder(t, src)
      invariant cost[src] == cost0[src] && |vis| == rounds + 1
      invariant SeedBound(t.graph, src, cost)
      invariant !stopped
      decreases |t.graph| - |vis|
    {
      var stop;
      stop, vis, cost, hop, keys, route := Round(t, src, vis, cost, hop, keys, route);
      rounds := rounds + 1;
      if stop {
        stopped := true;
        break;
      }
    }
    SubsetSize(vis, t.graph.Keys);
    if !stopped {
      SubsetFull(vis, t.graph.Keys);
    }
    visited := vis;
  }

  /** Lines 49-85 for one source: the costs, next hops and key order the
      table write reads. */
  method RouteFrom(t: Topology, src: int)
      returns (cost: map<int, Cost>, hop: map<int, int>, keys: seq<int>, ghost rounds: nat)
    requires WellFormed(t) && src in t.graph
    ensures Searched(t, src, cost, hop, keys)
    ensures rounds <= |t.graph| - 1
  {
    NbrOrder(t, src);
    var cost0, hop0, keys0 := Seed(t, src);
    ghost var route0 := map w | w in hop0 :: [src, w];
    SeedFrontier(t, src, cost0, hop0, keys0, route0);
    ghost var visited, route;
    visited, cost, hop, keys, route, rounds := Search(t, src, cost0, hop0, keys0, route0);
    FinishRoute(t, src, visited, cost, keys, hop, route);
  }
}
