/** Concrete runs of the router on a three-node topology whose direct link
    1 - 3 is dearer than the detour through 2. */
module Scenarios {
  import opened Sequences
  import opened Graphs
  import opened Paths
  import opened RouteSearch
  import opened DistanceVector

  /** The topology file: links 1 - 2 and 2 - 3 of cost 5, link 1 - 3 of cost 20. */
  const Triangle: seq<Edge> := [(1, 2, 5), (2, 3, 5), (1, 3, 20)]

  const Empty: Topology := Topology(map[], map[], [])

  /** The store after loading `Triangle`, with the key orders the loads produce. */
  const T3: Topology :=
    Topology(map[1 := map[2 := 5, 3 := 20], 2 := map[1 := 5, 3 := 5], 3 := map[2 := 5, 1 := 20]],
             map[1 := [2, 3], 2 := [1, 3], 3 := [2, 1]],
             [1, 2, 3])

  /** `T3` without the link 1 - 3. */
  const T2: Topology :=
    Topology(map[1 := map[2 := 5], 2 := map[1 := 5, 3 := 5], 3 := map[2 := 5]],
             map[1 := [2], 2 := [1, 3], 3 := [2]],
             [1, 2, 3])

  /** `T2` without the link 1 - 2: node 1 keeps its (now empty) row. */
  const T1: Topology :=
    Topology(map[1 := map[], 2 := map[3 := 5], 3 := map[2 := 5]],
             map[1 := [], 2 := [3], 3 := [2]],
             [1, 2, 3])

  /** Distances from node 1 in `T3` and `T2`. */
  const Pot: map<int, int> := map[1 := 0, 2 := 5, 3 := 10]

  /** The store after loading the first link. */
  const L1: Topology := Topology(map[1 := map[2 := 5], 2 := map[1 := 5]], map[1 := [2], 2 := [1]], [1, 2])

  lemma Load1()
    ensures Linked(Empty, 1, 2, 5) == L1
  {
    var p := Put(Empty, 1, 2, 5);
    assert [] + [2] == [2] && [] + [1] == [1] && [1] + [2] == [1, 2];
    assert p.graph == map[1 := map[2 := 5]];
    assert p.nbrs == map[1 := [2]];
    assert p == Topology(map[1 := map[2 := 5]], map[1 := [2]], [1]);
    var q := Put(p, 2, 1, 5);
    assert q.graph == L1.graph && q.nbrs == L1.nbrs && q.order == L1.order;
  }

  /** Loading the second link gives `T2`: the first two links of the file. */
  lemma Load2()
    ensures Linked(L1, 2, 3, 5) == T2
  {
    var p := Put(L1, 2, 3, 5);
    assert [1] + [3] == [1, 3] && [] + [2] == [2] && [1, 2] + [3] == [1, 2, 3];
    assert p.graph == map[1 := map[2 := 5], 2 := map[1 := 5, 3 := 5]];
    assert p.nbrs == map[1 := [2], 2 := [1, 3]];
    assert p == Topology(p.graph, p.nbrs, [1, 2]);
    var q := Put(p, 3, 2, 5);
    assert q.graph == T2.graph && q.nbrs == T2.nbrs && q.order == T2.order;
  }

  lemma Load3()
    ensures Linked(T2, 1, 3, 20) == T3
  {
    var p := Put(T2, 1, 3, 20);
    assert [2] + [3] == [2, 3] && [2] + [1] == [2, 1];
    assert p.graph == map[1 := map[2 := 5, 3 := 20], 2 := map[1 := 5, 3 := 5], 3 := map[2 := 5]];
    assert p.nbrs == map[1 := [2, 3], 2 := [1, 3], 3 := [2]] && p.order == [1, 2, 3];
    var q := Put(p, 3, 1, 20);
    assert q.graph == T3.graph && q.nbrs == T3.nbrs && q.order == T3.order;
  }

  lemma LoadTriangle()
    ensures LoadAll(Empty, Triangle) == T3
  {
    Load1();
    Load2();
    Load3();
    assert Triangle[..2][..1] == [(1, 2, 5)] && Triangle[..2] == [(1, 2, 5), (2, 3, 5)];
    assert [(1, 2, 5)][..0] == [];
    assert LoadAll(Empty, [(1, 2, 5)]) == L1;
    assert LoadAll(Empty, Triangle[..2]) == T2;
  }

  lemma Remove13()
    ensures HasEdge(T3.graph, 1, 3) && ApplyChange(T3, (1, 3, REMOVE)) == T2
  {
    assert [2, 3][..1] == [2] && [2, 1][..1] == [2] && [2][..0] == [];
    assert Without([2, 3], 3) == [2] && Without([2, 1], 1) == [2];
    assert map[2 := 5, 3 := 20] - {3} == map[2 := 5] && map[2 := 5, 1 := 20] - {1} == map[2 := 5];
    var u := Drop(T3, 1, 3);
    assert u.graph == map[1 := map[2 := 5], 2 := map[1 := 5, 3 := 5], 3 := map[2 := 5, 1 := 20]];
    assert u.nbrs == map[1 := [2], 2 := [1, 3], 3 := [2, 1]];
    var v := Drop(u, 3, 1);
    assert v.graph == T2.graph && v.nbrs == T2.nbrs && v.order == T2.order;
  }

  lemma Remove12()
    ensures HasEdge(T2.graph, 1, 2) && ApplyChange(T2, (1, 2, REMOVE)) == T1
  {
    assert [1, 3][..1] == [1] && [1][..0] == [] && [2][..0] == [];
    assert Without([2], 2) == [] && Without([1, 3], 1) == [3];
    assert map[2 := 5] - {2} == map[] && map[1 := 5, 3 := 5] - {1} == map[3 := 5];
    var u := Drop(T2, 1, 2);
    assert u.graph == map[1 := map[], 2 := map[1 := 5, 3 := 5], 3 := map[2 := 5]];
    assert u.nbrs == map[1 := [], 2 := [1, 3], 3 := [2]];
    var v := Drop(u, 2, 1);
    assert v.graph == T1.graph && v.nbrs == T1.nbrs && v.order == T1.order;
  }

  lemma Link(g: Graph, a: int, b: int)
    requires a in g && b in g && b in g[a]
    ensures Reachable(g, a, b)
  {
    assert PathFrom(g, [a, b], a, b);
  }

  /** In `T3` every two nodes are linked directly. */
  lemma T3Connected()
    ensures Connected(T3.graph)
  {
    var g := T3.graph;
    forall s, d | s in g && d in g ensures Reachable(g, s, d) {
      if s == d { ReachableSelf(g, s); } else { Link(g, s, d); }
    }
  }

  /** In `T2` nodes 1 and 3 reach each other through 2. */
  lemma T2Connected()
    ensures Connected(T2.graph)
  {
    var g := T2.graph;
    forall s, d | s in g && d in g ensures Reachable(g, s, d) {
      if s == d {
        ReachableSelf(g, s);
      } else if {s, d} == {1, 3} {
        var p := [s, 2, d];
        assert PathFrom(g, p, s, d);
      } else {
        Link(g, s, d);
      }
    }
  }

  /** Once 1 - 2 is gone node 1 has no link, so it reaches no other node. */
  lemma T1Disconnected()
    ensures !Connected(T1.graph)
  {
    var g := T1.graph;
    if Reachable(g, 1, 2) {
      var p :| PathFrom(g, p, 1, 2);
      var j := ExitStep(g, p, {1});
      assert false;
    }
  }

  /** The facts about `T3` and `T2` that decide node 1's table: its links
      are 1 - 2 of cost 5 and possibly 1 - 3 of cost 20, 2 - 3 costs 5, and
      `Pot` bounds the distances from 1 from below. */
  ghost predicate Detour(g: Graph)
  {
    && 1 in g && 2 in g && 3 in g
    && 2 in g[1] && g[1][2] == 5 && 3 in g[2] && g[2][3] == 5
    && g[1].Keys <= {2, 3} && (3 in g[1] ==> g[1][3] == 20)
    && Simple(g) && Feasible(g, Pot)
  }

  lemma DetourT3()
    ensures Detour(T3.graph)
  {
  }

  lemma DetourT2()
    ensures Detour(T2.graph)
  {
  }

  /** A route from 1 costs at least the potential of its end, and one that
      costs less than 20 leaves through 2. */
  lemma Bounds(g: Graph, d: int, h: int, c: int)
    requires Detour(g) && HasRoute(g, 1, d, h, c)
    ensures d in Pot && c >= Pot[d]
    ensures c < 20 ==> h == 2
  {
    var p :| RouteVia(g, 1, d, p, h, c);
    PotentialBound(g, Pot, p);
    SimpleIsNonNegative(g);
    FirstLinkBound(g, p);
  }

  lemma Walk2(g: Graph, a: int, b: int)
    requires a in g && b in g && b in g[a]
    ensures PathFrom(g, [a, b], a, b) && Weight(g, [a, b]) == g[a][b]
  {
    var p := [a, b];
    assert IsPath(g, p);
    assert p[..1] == [a];
  }

  lemma Walk3(g: Graph, a: int, b: int, c: int)
    requires a in g && b in g && c in g && b in g[a] && c in g[b]
    ensures PathFrom(g, [a, b, c], a, c) && Weight(g, [a, b, c]) == g[a][b] + g[b][c]
  {
    Walk2(g, a, b);
    var p := [a, b, c];
    assert IsPath(g, p);
    assert p[..2] == [a, b];
  }

  /** The entry for `d` in a correct table of node 1, given a walk from 1 to
      `d` through 2 that weighs `Pot[d]`. */
  lemma Entry(g: Graph, row: map<int, (int, int)>, d: int, p: seq<int>)
    requires Detour(g) && RowCorrect(g, 1, row) && d != 1 && d in g
    requires PathFrom(g, p, 1, d) && d in Pot && Weight(g, p) == Pot[d] && Pot[d] < 20
    ensures d in row && row[d] == (2, Pot[d])
  {
    SimpleIsNonNegative(g);
    assert d in row;
    var h, c := row[d].0, row[d].1;
    assert HasRoute(g, 1, d, h, c);
    assert Shortest(g, 1, d, c);
    assert c <= Weight(g, p);
    Bounds(g, d, h, c);
    assert c == Pot[d] && h == 2;
    assert row[d] == (h, c);
  }

  /** The table of node 1: 2 at cost 5 and 3 at cost 10, both through 2;
      the direct link 1 - 3 of cost 20 never wins. */
  lemma Node1Row(g: Graph, row: map<int, (int, int)>)
    requires Detour(g) && RowCorrect(g, 1, row)
    ensures 2 in row && 3 in row && row[2] == (2, 5) && row[3] == (2, 10)
  {
    Walk2(g, 1, 2);
    Walk3(g, 1, 2, 3);
    Entry(g, row, 2, [1, 2]);
    Entry(g, row, 3, [1, 2, 3]);
  }

  /** The triangle with a self-loop 1 - 1 of cost 7, which the topology
      file format accepts. */
  const Looped: Graph := map[1 := map[2 := 5, 3 := 20, 1 := 7], 2 := map[1 := 5, 3 := 5], 3 := map[2 := 5, 1 := 20]]

  /** What the cost bound for 3 needs of a graph: the walk 1 - 2 - 3 of
      weight 10, no negative link, and `Pot` bounding distances from 1. */
  ghost predicate Looping(g: Graph)
  {
    && 1 in g && 2 in g && 3 in g
    && 2 in g[1] && g[1][2] == 5 && 3 in g[2] && g[2][3] == 5
    && NonNegative(g) && Feasible(g, Pot)
  }

  lemma LoopedLooping()
    ensures Looping(Looped)
  {
  }

  /** In such a graph a correct table of node 1 records cost 10 to 3. */
  lemma LoopingRow(g: Graph, row: map<int, (int, int)>)
    requires Looping(g) && RowCorrect(g, 1, row)
    ensures 3 in row && row[3].1 == 10
  {
    Walk3(g, 1, 2, 3);
    var p :| RouteVia(g, 1, 3, p, row[3].0, row[3].1);
    PotentialBound(g, Pot, p);
  }

  /** The self-loop does not stop a correct table of node 1 from recording
      the shortest cost 10 to 3: links are non-negative, the walk 1 - 2 - 3
      weighs 10, and no walk to 3 weighs less than its potential 10. */
  lemma LoopedRow(row: map<int, (int, int)>)
    requires RowCorrect(Looped, 1, row)
    ensures 3 in row && row[3].1 == 10
  {
    LoopedLooping();
    LoopingRow(Looped, row);
  }

  /** The change files of the three runs. */
  const Cut13: seq<Edge> := [(1, 3, REMOVE)]
  const Cut13Then12: seq<Edge> := [(1, 3, REMOVE), (1, 2, REMOVE)]
  const Cut13Then14: seq<Edge> := [(1, 3, REMOVE), (1, 4, REMOVE)]

  /** Removing 1 - 3 from the triangle works and leaves `T2`. */
  lemma DetourWorks()
    ensures RunWorks(T3, Cut13) && ApplyAll(T3, Cut13) == T2
  {
    Remove13();
    T3Connected();
    T2Connected();
    assert Cut13[..0] == [] && Cut13[..1] == Cut13;
    RunWorksStep(T3, Cut13, 0);
  }

  /** Then removing 1 - 2 disconnects node 1. */
  lemma IsolateBreaks()
    ensures RunWorks(T3, Cut13) && ApplyAll(T3, Cut13) == T2
    ensures Applicable(T2, (1, 2, REMOVE)) && !Connected(ApplyChange(T2, (1, 2, REMOVE)).graph)
    ensures !RunWorks(T3, Cut13Then12)
  {
    Remove13();
    Remove12();
    T1Disconnected();
    var pre := Cut13Then12[..1];
    assert pre == Cut13 && Cut13Then12[..2] == Cut13Then12 && Cut13Then12[1] == (1, 2, REMOVE);
    DetourWorks();
    RunWorksStep(T3, Cut13Then12, 1);
  }

  /** Then removing the absent link 1 - 4 raises a KeyError. */
  lemma AbsentBreaks()
    ensures RunWorks(T3, Cut13) && ApplyAll(T3, Cut13) == T2
    ensures !Applicable(T2, (1, 4, REMOVE))
    ensures !RunWorks(T3, Cut13Then14)
  {
    var pre := Cut13Then14[..1];
    assert pre == Cut13 && Cut13Then14[..2] == Cut13Then14 && Cut13Then14[1] == (1, 4, REMOVE);
    DetourWorks();
    RunWorksStep(T3, Cut13Then14, 1);
  }

  /** A correct set of tables holds a correct row for every node. */
  lemma RowOf(g: Graph, tabs: Tables, n: int)
    requires TablesCorrect(g, tabs) && n in g
    ensures n in tabs && RowCorrect(g, n, tabs[n])
  {
  }

  lemma T2Nodes()
    ensures T2.graph.Keys == {1, 2, 3}
  {
  }

  /** What correct tables of `T2` say about node 1: 2 and 3 are reached
      through 2, and no other node has an entry. */
  lemma DetourTables(tabs: Tables)
    requires TablesCorrect(T2.graph, tabs)
    ensures 1 in tabs && tabs[1].Keys == {1, 2, 3} && tabs[1][2] == (2, 5) && tabs[1][3] == (2, 10)
  {
    T2Nodes();
    DetourT2();
    RowOf(T2.graph, tabs, 1);
    Node1Row(T2.graph, tabs[1]);
  }

  lemma T3Nodes()
    ensures T3.graph.Keys == {1, 2, 3}
  {
  }

  /** Before any change the direct link 1 - 3 (cost 20) is dearer than the
      detour through 2: correct tables of the triangle already send node 1's
      traffic for 3 through 2 at cost 10. */
  lemma TriangleTables(tabs: Tables)
    requires TablesCorrect(T3.graph, tabs)
    ensures 1 in tabs && tabs[1].Keys == {1, 2, 3} && tabs[1][2] == (2, 5) && tabs[1][3] == (2, 10)
  {
    T3Nodes();
    DetourT3();
    RowOf(T3.graph, tabs, 1);
    Node1Row(T3.graph, tabs[1]);
  }

  /** With such a table, a message from 1 to 3 goes to 2 at cost 10 and one
      to the unknown node 5 is reported unreachable. */
  lemma DetourDeliveries(tabs: Tables)
    requires 1 in tabs && tabs[1].Keys == {1, 2, 3} && tabs[1][3] == (2, 10)
    ensures Deliver(tabs, (1, 3, "hello")) == Delivery(1, 3, Fin(10), Via([1, 2]), "hello")
    ensures Deliver(tabs, (1, 5, "hello")) == Delivery(1, 5, Inf, Unreachable, "hello")
  {
  }

  /** Load the triangle, build and send, then remove 1 - 3: the run
      succeeds and node 1 still reaches 3 through 2 at cost 10; a message
      from 1 to 3 goes to 2, one to the unknown node 5 is unreachable. */
  method RemoveDetourIntact() returns (r: Router, ok: bool)
    ensures ok && r.Valid() && r.Topo() == T2
    ensures 1 in r.tables && 2 in r.tables[1] && 3 in r.tables[1] && r.tables[1][2] == (2, 5) && r.tables[1][3] == (2, 10)
    ensures Deliver(r.tables, (1, 3, "hello")) == Delivery(1, 3, Fin(10), Via([1, 2]), "hello")
    ensures Deliver(r.tables, (1, 5, "hello")) == Delivery(1, 5, Inf, Unreachable, "hello")
  {
    r := new Router();
    ghost var snaps;
    LoadTriangle();
    DetourWorks();
    assert Cut13[..1] == Cut13;
    ok, snaps := r.Run(Triangle, [], Cut13);
    assert TablesCorrect(T2.graph, r.tables);
    DetourTables(r.tables);
    DetourDeliveries(r.tables);
  }

  /** The same run followed by the removal of 1 - 2 disconnects node 1: the
      rebuild raises a KeyError and the run fails. */
  method IsolateFails() returns (r: Router, ok: bool)
    ensures !ok && r.Valid()
  {
    r := new Router();
    ghost var snaps;
    LoadTriangle();
    IsolateBreaks();
    ok, snaps := r.Run(Triangle, [], Cut13Then12);
  }

  /** Removing a link that was never there raises a KeyError: the run fails. */
  method RemoveAbsentFails() returns (r: Router, ok: bool)
    ensures !ok && r.Valid()
  {
    r := new Router();
    ghost var snaps;
    LoadTriangle();
    AbsentBreaks();
    ok, snaps := r.Run(Triangle, [], Cut13Then14);
  }
}
