/** The router's topology store: `graphNodes`, a dict of dicts from node to
    neighbour to link cost, together with the insertion order of both dict
    levels (Python dicts iterate in insertion order, and the route
    computation and its output follow that order). */
module Graphs {
  import opened Sequences

  /** node -> neighbour -> link cost */
  type Graph = map<int, map<int, int>>

  /** A topology entry or a topology change: (node1, node2, cost). */
  type Edge = (int, int, int)

  /** The cost that marks a change as "remove this link". */
  const REMOVE: int := -999

  /** The dict of dicts with its key orders: `order` is the iteration order of
      `graphNodes`, `nbrs[a]` that of `graphNodes[a]`. */
  datatype Topology = Topology(graph: Graph, nbrs: map<int, seq<int>>, order: seq<int>)

  predicate HasEdge(g: Graph, a: int, b: int)
  {
    a in g && b in g[a]
  }

  /** The two order components list exactly the keys of their dicts, once each. */
  ghost predicate Ordered(t: Topology)
  {
    && Distinct(t.order)
    && Elems(t.order) == t.graph.Keys
    && t.nbrs.Keys == t.graph.Keys
    && forall a :: a in t.graph ==> Distinct(t.nbrs[a]) && Elems(t.nbrs[a]) == t.graph[a].Keys
  }

  /** Every link is stored in both directions with the same cost. */
  ghost predicate Symmetric(g: Graph)
  {
    forall a, b :: a in g && b in g[a] ==> b in g && a in g[b] && g[b][a] == g[a][b]
  }

  /** In a symmetric store every neighbour is itself a node. */
  lemma RowKeys(g: Graph, a: int)
    requires Symmetric(g) && a in g
    ensures g[a].Keys <= g.Keys
  {
    forall b | b in g[a] ensures b in g {
      assert a in g && b in g[a];
    }
  }

  ghost predicate WellFormed(t: Topology)
  {
    Ordered(t) && Symmetric(t.graph)
  }

  /** The neighbour order of a node lists exactly its links, once each. */
  lemma NbrOrder(t: Topology, a: int)
    requires WellFormed(t) && a in t.graph
    ensures a in t.nbrs && Distinct(t.nbrs[a]) && Elems(t.nbrs[a]) == t.graph[a].Keys
    ensures t.graph[a].Keys <= t.graph.Keys
  {
    RowKeys(t.graph, a);
  }

  /** No self-loops and every live cost at least 1: the topology the route
      computation is meant for. */
  ghost predicate Simple(g: Graph)
  {
    forall a, b :: a in g && b in g[a] ==> a != b && g[a][b] >= 1
  }

  /** Reading `graphNodes[a]` on the defaultdict: an unknown node gets an
      empty row, appended to the node order. */
  function Touch(t: Topology, a: int): Topology
  {
    if a in t.graph then t else Topology(t.graph[a := map[]], t.nbrs[a := []], t.order + [a])
  }

  lemma TouchWellFormed(t: Topology, a: int)
    requires WellFormed(t)
    ensures WellFormed(Touch(t, a)) && Touch(t, a).graph.Keys == t.graph.Keys + {a}
  {
    TouchSpec(t, a);
    var g := Touch(t, a).graph;
    forall x, y | x in g && y in g[x] ensures y in g && x in g[y] && g[y][x] == g[x][y] {
      assert HasEdge(t.graph, x, y);
    }
  }

  /** `graphNodes[a][b] = c`: one direction only. */
  function Put(t: Topology, a: int, b: int, c: int): Topology
  {
    var u := Touch(t, a);
    var adj := if a in u.nbrs then u.nbrs[a] else [];
    Topology(u.graph[a := u.graph[a][b := c]],
             u.nbrs[a := if b in u.graph[a] then adj else adj + [b]],
             u.order)
  }

  /** `del graphNodes[a][b]` for a key that is present: one direction only. */
  function Drop(t: Topology, a: int, b: int): Topology
    requires HasEdge(t.graph, a, b)
  {
    var adj := if a in t.nbrs then t.nbrs[a] else [];
    Topology(t.graph[a := t.graph[a] - {b}], t.nbrs[a := Without(adj, b)], t.order)
  }

  /** Adding or updating the link (a, b) with cost c, in both directions. */
  function Linked(t: Topology, a: int, b: int, c: int): Topology
  {
    Put(Put(t, a, b, c), b, a, c)
  }

  /** Removing the link (a, b): the first delete needs the entry; the second
      one is guarded. On a symmetric store (every caller's, see WellFormed)
      only a self-loop makes that guard fail; the model does not add the row
      that the read of `graphNodes[b]` would create on a store without `b`. */
  function Unlinked(t: Topology, a: int, b: int): Topology
    requires HasEdge(t.graph, a, b)
  {
    var u := Drop(t, a, b);
    if HasEdge(u.graph, b, a) then Drop(u, b, a) else u
  }

  /** A change can be applied without a KeyError. */
  predicate Applicable(t: Topology, ch: Edge)
  {
    ch.2 != REMOVE || HasEdge(t.graph, ch.0, ch.1)
  }

  /** The topology after one change; a removal of an absent link leaves the
      node row the defaultdict created before the KeyError. */
  function ApplyChange(t: Topology, ch: Edge): Topology
  {
    if ch.2 != REMOVE then Linked(t, ch.0, ch.1, ch.2)
    else if HasEdge(t.graph, ch.0, ch.1) then Unlinked(t, ch.0, ch.1)
    else Touch(t, ch.0)
  }

  /** Every change of the list applies, each on the result of the ones before. */
  predicate AllApplicable(t: Topology, chs: seq<Edge>)
    decreases |chs|
  {
    chs == [] || (AllApplicable(t, chs[..|chs| - 1]) && Applicable(ApplyAll(t, chs[..|chs| - 1]), chs[|chs| - 1]))
  }

  function ApplyAll(t: Topology, chs: seq<Edge>): Topology
    decreases |chs|
  {
    if chs == [] then t else ApplyChange(ApplyAll(t, chs[..|chs| - 1]), chs[|chs| - 1])
  }

  /** The initial load: each topology entry inserted in both directions. */
  function LoadAll(t: Topology, edges: seq<Edge>): Topology
    decreases |edges|
  {
    if edges == [] then t
    else
      var e := edges[|edges| - 1];
      Linked(LoadAll(t, edges[..|edges| - 1]), e.0, e.1, e.2)
  }

  lemma TouchOrdered(t: Topology, a: int)
    requires Ordered(t)
    ensures Ordered(Touch(t, a))
    ensures Touch(t, a).graph.Keys == t.graph.Keys + {a}
    ensures t.order <= Touch(t, a).order
  {
    if a !in t.graph {
      ElemsAppend(t.order, [a]);
      assert Elems(t.order + [a]) == t.graph.Keys + {a};
      assert Distinct(t.order + [a]);
    }
  }

  lemma TouchSpec(t: Topology, a: int)
    requires Ordered(t)
    ensures Ordered(Touch(t, a))
    ensures Touch(t, a).graph.Keys == t.graph.Keys + {a}
    ensures t.order <= Touch(t, a).order
    ensures forall x, y :: HasEdge(Touch(t, a).graph, x, y) <==> HasEdge(t.graph, x, y)
    ensures forall x, y :: HasEdge(t.graph, x, y) ==> Touch(t, a).graph[x][y] == t.graph[x][y]
  {
    TouchOrdered(t, a);
  }

  /** Appending a key on a miss keeps a key order exact and duplicate-free. */
  lemma AppendKey(adj: seq<int>, keys: set<int>, b: int)
    requires Distinct(adj) && Elems(adj) == keys
    ensures var row := if b in keys then adj else adj + [b];
            Distinct(row) && Elems(row) == keys + {b}
  {
    if b !in keys {
      ElemsAppend(adj, [b]);
      assert Elems([b]) == {b};
    }
  }

  /** The link x -> y is the same in both graphs: present in both with the
      same cost, or absent from both. */
  ghost predicate SameLink(g1: Graph, g2: Graph, x: int, y: int)
  {
    (HasEdge(g1, x, y) <==> HasEdge(g2, x, y)) && (HasEdge(g1, x, y) ==> g1[x][y] == g2[x][y])
  }

  /** Every link other than a -> b and b -> a is the same in both graphs. */
  ghost predicate AgreeExcept(g1: Graph, g2: Graph, a: int, b: int)
  {
    forall x, y :: (x != a || y != b) && (x != b || y != a) ==> SameLink(g1, g2, x, y)
  }

  /** Replacing the row of a known node by a row whose key order is exact
      keeps the topology ordered. */
  lemma OrderedUpdate(u: Topology, a: int, m: map<int, int>, row: seq<int>)
    requires Ordered(u) && a in u.graph && Distinct(row) && Elems(row) == m.Keys
    ensures Ordered(Topology(u.graph[a := m], u.nbrs[a := row], u.order))
  {
    var r := Topology(u.graph[a := m], u.nbrs[a := row], u.order);
    assert r.graph.Keys == u.graph.Keys && r.nbrs.Keys == u.nbrs.Keys;
    forall k | k in r.graph ensures Distinct(r.nbrs[k]) && Elems(r.nbrs[k]) == r.graph[k].Keys {
      if k != a {
        assert r.nbrs[k] == u.nbrs[k] && r.graph[k] == u.graph[k];
      }
    }
  }

  lemma PutOrdered(t: Topology, a: int, b: int, c: int, r: Topology)
    requires Ordered(t) && r == Put(t, a, b, c)
    ensures Ordered(r) && r.graph.Keys == t.graph.Keys + {a} && t.order <= r.order
  {
    TouchOrdered(t, a);
    var u := Touch(t, a);
    var adj := u.nbrs[a];
    var row := if b in u.graph[a] then adj else adj + [b];
    var m := u.graph[a][b := c];
    AppendKey(adj, u.graph[a].Keys, b);
    assert m.Keys == u.graph[a].Keys + {b};
    OrderedUpdate(u, a, m, row);
    assert r == Topology(u.graph[a := m], u.nbrs[a := row], u.order);
  }

  lemma PutSpec(t: Topology, a: int, b: int, c: int, r: Topology)
    requires Ordered(t) && r == Put(t, a, b, c)
    ensures Ordered(r) && r.graph.Keys == t.graph.Keys + {a} && t.order <= r.order
    ensures HasEdge(r.graph, a, b) && r.graph[a][b] == c
    ensures forall x, y :: x != a || y != b ==> SameLink(r.graph, t.graph, x, y)
    ensures r.nbrs[a] == if HasEdge(t.graph, a, b) then t.nbrs[a] else (if a in t.graph then t.nbrs[a] else []) + [b]
    ensures forall x :: x in t.nbrs && x != a ==> r.nbrs[x] == t.nbrs[x]
  {
    PutOrdered(t, a, b, c, r);
    TouchSpec(t, a);
    var u := Touch(t, a);
    assert r.graph == u.graph[a := u.graph[a][b := c]];
    forall x, y | x != a || y != b ensures SameLink(r.graph, t.graph, x, y) {
      assert SameLink(u.graph, t.graph, x, y);
    }
  }

  /** Writing a cost that is already stored changes nothing. */
  lemma PutAgain(t: Topology, a: int, b: int, c: int)
    requires HasEdge(t.graph, a, b) && t.graph[a][b] == c && a in t.nbrs
    ensures Put(t, a, b, c) == t
  {
    assert Touch(t, a) == t;
    assert t.graph[a][b := c] == t.graph[a];
    assert t.graph[a := t.graph[a]] == t.graph;
    assert t.nbrs[a := t.nbrs[a]] == t.nbrs;
  }

  lemma LinkedOrdered(t: Topology, a: int, b: int, c: int, r: Topology)
    requires Ordered(t) && r == Linked(t, a, b, c)
    ensures Ordered(r) && r.graph.Keys == t.graph.Keys + {a, b} && t.order <= r.order
  {
    var p := Put(t, a, b, c);
    PutOrdered(t, a, b, c, p);
    PutOrdered(p, b, a, c, r);
  }

  lemma LinkedEdges(t: Topology, a: int, b: int, c: int, r: Topology)
    requires Ordered(t) && r == Linked(t, a, b, c)
    ensures HasEdge(r.graph, a, b) && r.graph[a][b] == c
    ensures HasEdge(r.graph, b, a) && r.graph[b][a] == c
    ensures AgreeExcept(r.graph, t.graph, a, b)
  {
    var p := Put(t, a, b, c);
    PutSpec(t, a, b, c, p);
    PutSpec(p, b, a, c, r);
    assert HasEdge(r.graph, a, b) && r.graph[a][b] == c by {
      if a != b { assert SameLink(r.graph, p.graph, a, b); }
    }
    forall x, y | (x != a || y != b) && (x != b || y != a) ensures SameLink(r.graph, t.graph, x, y) {
      assert SameLink(r.graph, p.graph, x, y);
      assert SameLink(p.graph, t.graph, x, y);
    }
  }

  /** Adding or updating (a, b, c) sets both directions to c, adds unknown
      endpoints as nodes after the known ones, keeps the graph symmetric and
      leaves every other link as it was (DistanceVector.py:149-150, 35-36). */
  lemma LinkedSpec(t: Topology, a: int, b: int, c: int)
    requires WellFormed(t)
    ensures WellFormed(Linked(t, a, b, c))
    ensures Linked(t, a, b, c).graph.Keys == t.graph.Keys + {a, b}
    ensures t.order <= Linked(t, a, b, c).order
    ensures HasEdge(Linked(t, a, b, c).graph, a, b) && Linked(t, a, b, c).graph[a][b] == c
    ensures HasEdge(Linked(t, a, b, c).graph, b, a) && Linked(t, a, b, c).graph[b][a] == c
    ensures AgreeExcept(Linked(t, a, b, c).graph, t.graph, a, b)
  {
    var r := Linked(t, a, b, c);
    LinkedOrdered(t, a, b, c, r);
    LinkedEdges(t, a, b, c, r);
    forall x, y | x in r.graph && y in r.graph[x]
      ensures y in r.graph && x in r.graph[y] && r.graph[y][x] == r.graph[x][y]
    {
      if (x != a || y != b) && (x != b || y != a) {
        assert SameLink(r.graph, t.graph, x, y);
        assert SameLink(r.graph, t.graph, y, x);
      }
    }
  }

  /** Setting the same cost twice is the same as setting it once. */
  lemma LinkedIdempotent(t: Topology, a: int, b: int, c: int)
    requires Ordered(t)
    ensures Linked(Linked(t, a, b, c), a, b, c) == Linked(t, a, b, c)
  {
    var r := Linked(t, a, b, c);
    LinkedOrdered(t, a, b, c, r);
    LinkedEdges(t, a, b, c, r);
    PutAgain(r, a, b, c);
    PutAgain(r, b, a, c);
  }

  lemma DropSpec(t: Topology, a: int, b: int)
    requires Ordered(t) && HasEdge(t.graph, a, b)
    ensures Ordered(Drop(t, a, b))
    ensures Drop(t, a, b).graph.Keys == t.graph.Keys && Drop(t, a, b).order == t.order
    ensures !HasEdge(Drop(t, a, b).graph, a, b)
    ensures forall x, y :: x != a || y != b ==> SameLink(Drop(t, a, b).graph, t.graph, x, y)
    ensures Drop(t, a, b).nbrs[a] == Without(t.nbrs[a], b)
    ensures forall x :: x in t.nbrs && x != a ==> Drop(t, a, b).nbrs[x] == t.nbrs[x]
  {
    WithoutElems(t.nbrs[a], b);
  }

  lemma UnlinkedEdges(t: Topology, a: int, b: int, r: Topology)
    requires Ordered(t) && HasEdge(t.graph, a, b) && r == Unlinked(t, a, b)
    ensures Ordered(r) && r.graph.Keys == t.graph.Keys && r.order == t.order
    ensures !HasEdge(r.graph, a, b) && !HasEdge(r.graph, b, a)
    ensures AgreeExcept(r.graph, t.graph, a, b)
  {
    var u := Drop(t, a, b);
    DropSpec(t, a, b);
    if HasEdge(u.graph, b, a) {
      DropSpec(u, b, a);
      forall x, y | (x != a || y != b) && (x != b || y != a) ensures SameLink(r.graph, t.graph, x, y) {
        assert SameLink(r.graph, u.graph, x, y);
        assert SameLink(u.graph, t.graph, x, y);
      }
    }
  }

  lemma UnlinkedSymmetric(t: Topology, a: int, b: int, r: Topology)
    requires WellFormed(t) && HasEdge(t.graph, a, b) && r == Unlinked(t, a, b)
    requires !HasEdge(r.graph, a, b) && !HasEdge(r.graph, b, a) && AgreeExcept(r.graph, t.graph, a, b)
    ensures Symmetric(r.graph)
  {
    forall x, y | x in r.graph && y in r.graph[x]
      ensures y in r.graph && x in r.graph[y] && r.graph[y][x] == r.graph[x][y]
    {
      assert SameLink(r.graph, t.graph, x, y);
      assert SameLink(r.graph, t.graph, y, x);
    }
  }

  /** Removing a present link deletes both directions, keeps every node (an
      isolated node stays in the vertex set and in the node order) and leaves
      every other link as it was (DistanceVector.py:141-147). */
  lemma UnlinkedSpec(t: Topology, a: int, b: int)
    requires WellFormed(t) && HasEdge(t.graph, a, b)
    ensures WellFormed(Unlinked(t, a, b))
    ensures Unlinked(t, a, b).graph.Keys == t.graph.Keys
    ensures Unlinked(t, a, b).order == t.order
    ensures !HasEdge(Unlinked(t, a, b).graph, a, b) && !HasEdge(Unlinked(t, a, b).graph, b, a)
    ensures AgreeExcept(Unlinked(t, a, b).graph, t.graph, a, b)
  {
    var r := Unlinked(t, a, b);
    UnlinkedEdges(t, a, b, r);
    UnlinkedSymmetric(t, a, b, r);
  }

  /** The first delete is unguarded: removing the same link a second time
      raises KeyError instead of doing nothing (DistanceVector.py:142). */
  lemma RemoveTwiceFails(t: Topology, a: int, b: int)
    requires WellFormed(t) && HasEdge(t.graph, a, b)
    ensures !Applicable(Unlinked(t, a, b), (a, b, REMOVE))
  {
    UnlinkedSpec(t, a, b);
  }

  /** A change never forgets a node and keeps the store well formed. */
  lemma ApplyChangeSpec(t: Topology, ch: Edge)
    requires WellFormed(t)
    ensures WellFormed(ApplyChange(t, ch))
    ensures t.graph.Keys <= ApplyChange(t, ch).graph.Keys
    ensures t.order <= ApplyChange(t, ch).order
  {
    if ch.2 != REMOVE {
      LinkedSpec(t, ch.0, ch.1, ch.2);
    } else if HasEdge(t.graph, ch.0, ch.1) {
      UnlinkedSpec(t, ch.0, ch.1);
    } else {
      TouchSpec(t, ch.0);
      var r := Touch(t, ch.0);
      assert Symmetric(r.graph) by {
        forall x, y | x in r.graph && y in r.graph[x]
          ensures y in r.graph && x in r.graph[y] && r.graph[y][x] == r.graph[x][y]
        {
          assert HasEdge(t.graph, x, y);
        }
      }
    }
  }

  /** Links added with distinct endpoints and a cost of at least 1, and every
      removal, keep the topology simple. */
  lemma ApplyChangeSimple(t: Topology, ch: Edge)
    requires WellFormed(t) && Simple(t.graph)
    requires ch.2 != REMOVE ==> ch.0 != ch.1 && ch.2 >= 1
    ensures Simple(ApplyChange(t, ch).graph)
  {
    var r := ApplyChange(t, ch);
    if ch.2 != REMOVE {
      LinkedSpec(t, ch.0, ch.1, ch.2);
    } else if HasEdge(t.graph, ch.0, ch.1) {
      UnlinkedSpec(t, ch.0, ch.1);
    } else {
      TouchSpec(t, ch.0);
    }
    forall x, y | x in r.graph && y in r.graph[x] ensures x != y && r.graph[x][y] >= 1 {
      if (x != ch.0 || y != ch.1) && (x != ch.1 || y != ch.0) {
        assert SameLink(r.graph, t.graph, x, y);
      }
    }
  }

  /** Every node named by a list of entries. */
  function Ends(edges: seq<Edge>): set<int>
    decreases |edges|
  {
    if edges == [] then {} else Ends(edges[..|edges| - 1]) + {edges[|edges| - 1].0, edges[|edges| - 1].1}
  }

  lemma {:induction false} LoadAllSpec(t: Topology, edges: seq<Edge>)
    requires WellFormed(t)
    ensures WellFormed(LoadAll(t, edges))
    ensures LoadAll(t, edges).graph.Keys == t.graph.Keys + Ends(edges)
    ensures t.order <= LoadAll(t, edges).order
    decreases |edges|
  {
    if edges != [] {
      var e := edges[|edges| - 1];
      var pre := edges[..|edges| - 1];
      var u := LoadAll(t, pre);
      LoadAllSpec(t, pre);
      LoadStep(u, e.0, e.1, e.2, t.order);
      assert Ends(edges) == Ends(pre) + {e.0, e.1};
    }
  }

  /** One entry of the load, as much of LinkedSpec as the induction needs. */
  lemma LoadStep(u: Topology, a: int, b: int, c: int, order0: seq<int>)
    requires WellFormed(u) && order0 <= u.order
    ensures WellFormed(Linked(u, a, b, c))
    ensures Linked(u, a, b, c).graph.Keys == u.graph.Keys + {a, b}
    ensures order0 <= Linked(u, a, b, c).order
  {
    LinkedSpec(u, a, b, c);
  }

  lemma {:induction false} ApplyAllSpec(t: Topology, chs: seq<Edge>)
    requires WellFormed(t)
    ensures WellFormed(ApplyAll(t, chs))
    ensures t.graph.Keys <= ApplyAll(t, chs).graph.Keys
    decreases |chs|
  {
    if chs != [] {
      ApplyAllSpec(t, chs[..|chs| - 1]);
      ApplyChangeSpec(ApplyAll(t, chs[..|chs| - 1]), chs[|chs| - 1]);
    }
  }

  /** A list of changes that applies in full applies up to every point, and
      each change applies to the result of the ones before it. */
  lemma {:induction false} AllApplicablePrefix(t: Topology, chs: seq<Edge>, k: int)
    requires AllApplicable(t, chs) && 0 <= k < |chs|
    ensures AllApplicable(t, chs[..k]) && Applicable(ApplyAll(t, chs[..k]), chs[k])
    decreases |chs|
  {
    var p := chs[..|chs| - 1];
    if k < |chs| - 1 {
      assert p[..k] == chs[..k] && p[k] == chs[k];
      AllApplicablePrefix(t, p, k);
    } else {
      assert chs[..k] == p;
    }
  }
}
