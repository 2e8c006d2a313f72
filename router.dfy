/** The `Router` of DistanceVector.py: the topology store, the forwarding
    tables built by `forwarding_table`, message delivery and the replay of
    topology changes. The output file is modelled as the sequence of records
    the methods append to `out`. */
module DistanceVector {
  import opened Sequences
  import opened Graphs
  import opened Paths
  import opened RouteSearch

  /** A message to send: (source, dest, payload). */
  type Message = (int, int, string)

  /** forwardingTables: node -> dest -> (nextHop, cost). */
  type Tables = map<int, map<int, (int, int)>>

  /** The hop list of a delivery line. */
  datatype Hops = Via(nodes: seq<int>) | Unreachable

  /** One line of the output file: a table line `dest nextHop cost`, or a
      delivery line `from source to dest cost .. hops .. message ..`. */
  datatype Record =
    | Route(dest: int, nextHop: int, cost: int)
    | Delivery(source: int, dest: int, pathCost: Cost, hops: Hops, payload: string)

  /** The table lines for `keys` in order, skipping the node itself (and
      any key the row lacks, which a written table never does). */
  function Lines(row: map<int, (int, int)>, n: int, keys: seq<int>): seq<Record>
    decreases |keys|
  {
    if keys == [] then []
    else
      var d := keys[|keys| - 1];
      Lines(row, n, keys[..|keys| - 1]) + (if d == n || d !in row then [] else [Route(d, row[d].0, row[d].1)])
  }

  /** Every table line shows the row's entry for a key other than the node
      itself, and every such key gets a line. */
  lemma {:induction false} LinesSpec(row: map<int, (int, int)>, n: int, keys: seq<int>)
    ensures forall r :: r in Lines(row, n, keys) ==>
      r.Route? && r.dest in keys && r.dest != n && r.dest in row && (r.nextHop, r.cost) == row[r.dest]
    ensures forall d :: d in keys && d != n && d in row ==> Route(d, row[d].0, row[d].1) in Lines(row, n, keys)
    decreases |keys|
  {
    if keys != [] {
      var p := keys[..|keys| - 1];
      assert forall d :: d in p ==> d in keys;
      LinesSpec(row, n, p);
      assert keys == p + [keys[|keys| - 1]];
    }
  }

  /** The lines depend only on the entries of the listed keys. */
  lemma {:induction false} LinesAgree(r1: map<int, (int, int)>, r2: map<int, (int, int)>, n: int, keys: seq<int>)
    requires forall d :: d in keys && d != n ==> d in r1 && d in r2 && r1[d] == r2[d]
    ensures Lines(r1, n, keys) == Lines(r2, n, keys)
    decreases |keys|
  {
    if keys != [] {
      var p := keys[..|keys| - 1];
      assert forall d :: d in p ==> d in keys;
      LinesAgree(r1, r2, n, p);
    }
  }

  /** The row of node `n` holds every key of its cost dict. */
  ghost predicate Covers(t: Topology, tabs: Tables, n: int)
  {
    n in tabs && forall d :: d in KeyOrder(t, n) && d != n ==> d in tabs[n]
  }

  /** The lines written for node `n` (lines 87-93): its table in the key
      order of its cost dict, then the self line. */
  ghost function Block(t: Topology, tabs: Tables, n: int): seq<Record>
  {
    Lines(if n in tabs then tabs[n] else map[], n, KeyOrder(t, n)) + [Route(n, n, 0)]
  }

  /** The lines `forwarding_table` writes for `nodes`, one block each. */
  ghost function TableLog(t: Topology, tabs: Tables, nodes: seq<int>): seq<Record>
    decreases |nodes|
  {
    if nodes == [] then []
    else
      TableLog(t, tabs, nodes[..|nodes| - 1]) + Block(t, tabs, nodes[|nodes| - 1])
  }

  lemma {:induction false} TableLogAgree(t: Topology, tabs1: Tables, tabs2: Tables, nodes: seq<int>)
    requires forall n :: n in nodes ==> n in tabs1 && n in tabs2 && tabs2[n] == tabs1[n]
    ensures TableLog(t, tabs1, nodes) == TableLog(t, tabs2, nodes)
    decreases |nodes|
  {
    if nodes != [] {
      var p := nodes[..|nodes| - 1];
      assert forall n :: n in p ==> n in nodes;
      TableLogAgree(t, tabs1, tabs2, p);
    }
  }

  /** A correct table for node `n`: an entry for every node; the node itself
      is reached through itself at cost 0; every other entry names a
      neighbour of `n` that starts a walk of the recorded cost, a direct
      link is never beaten by a dearer entry, and when no link cost is
      negative (self-loops allowed) the cost is the shortest distance. */
  ghost predicate RowCorrect(g: Graph, n: int, row: map<int, (int, int)>)
    requires n in g
  {
    && row.Keys == g.Keys
    && row[n] == (n, 0)
    && (forall d :: d in row && d != n ==> row[d].0 in g[n] && HasRoute(g, n, d, row[d].0, row[d].1))
    && (forall d :: d in row && d != n && d in g[n] ==> row[d].1 <= g[n][d])
    && (NonNegative(g) ==> forall d :: d in row ==> Shortest(g, n, d, row[d].1))
  }

  /** The tables only mention known nodes. */
  ghost predicate Within(tabs: Tables, g: Graph)
  {
    tabs.Keys <= g.Keys && forall n :: n in tabs ==> tabs[n].Keys <= g.Keys
  }

  lemma WithinGrow(tabs: Tables, g1: Graph, g2: Graph)
    requires Within(tabs, g1) && g1.Keys <= g2.Keys
    ensures Within(tabs, g2)
  {
  }

  /** Every node reaches every node. */
  ghost predicate AllReach(g: Graph, n: int)
  {
    forall d :: d in g ==> Reachable(g, n, d)
  }

  /** The cost dict of a search holds every node. */
  lemma KeyOrderElems(t: Topology, n: int)
    requires WellFormed(t) && n in t.graph
    ensures Elems(KeyOrder(t, n)) == t.graph.Keys
  {
    NbrOrder(t, n);
    ExtendElems([n], t.nbrs[n]);
    ExtendElems(Extend([n], t.nbrs[n]), t.order);
  }

  /** The table write succeeds exactly when every node is reachable: the
      next hop it reads exists for the reachable nodes only. */
  lemma SearchedReach(t: Topology, n: int, cost: map<int, Cost>, hop: map<int, int>, keys: seq<int>)
    requires n in t.graph && Searched(t, n, cost, hop, keys)
    ensures (forall d :: d in keys && d != n ==> d in hop) <==> AllReach(t.graph, n)
  {
    ReachableSelf(t.graph, n);
    if forall d :: d in keys && d != n ==> d in hop {
      forall d | d in t.graph ensures Reachable(t.graph, n, d) {
        if d != n { assert d in Elems(keys); }
      }
    } else {
      var d :| d in keys && d != n && d !in hop;
      assert d in Elems(keys);
    }
  }

  /** A row written from a search is correct. */
  lemma SearchedRow(t: Topology, n: int, cost: map<int, Cost>, hop: map<int, int>, keys: seq<int>,
                    row: map<int, (int, int)>)
    requires n in t.graph && Searched(t, n, cost, hop, keys)
    requires row.Keys == t.graph.Keys && row[n] == (n, 0)
    requires forall d :: d in keys && d != n ==> d in hop && row[d] == (hop[d], cost[d].n)
    ensures RowCorrect(t.graph, n, row)
  {
    var g := t.graph;
    forall d | d in row && d != n
      ensures row[d].0 in g[n] && HasRoute(g, n, d, row[d].0, row[d].1)
      ensures d in g[n] ==> row[d].1 <= g[n][d]
    {
      assert d in Elems(keys);
    }
    if NonNegative(g) {
      forall d | d in row ensures Shortest(g, n, d, row[d].1) {
        if d == n {
          forall p | PathFrom(g, p, n, n) ensures 0 <= Weight(g, p) {
            WeightNonNegative(g, p);
          }
        } else {
          assert d in Elems(keys);
        }
      }
    }
  }

  /** Lines 87-93 for `node`, on the table `base` it starts from: write the
      entry and the line of every key of the cost dict except the node
      itself, in key order, then the self entry and its line. Reading
      `nextHop[dest]` for a key without a next hop raises a KeyError: `ok` is
      false and the entries and lines written before it are kept. */
  method FillRow(node: int, base: map<int, (int, int)>, cost: map<int, Cost>, hop: map<int, int>, keys: seq<int>)
    returns (ok: bool, row: map<int, (int, int)>, lines: seq<Record>)
    requires Distinct(keys)
    requires forall d :: d in keys && d != node && d in hop ==> d in cost && cost[d].Fin?
    ensures ok <==> forall d :: d in keys && d != node ==> d in hop
    ensures forall d :: d in row ==> d in base || d in keys || d == node
    ensures ok ==> (forall d :: d in base || d in keys ==> d in row) && node in row && row[node] == (node, 0)
    ensures ok ==> forall d :: d in keys && d != node ==> row[d] == (hop[d], cost[d].n)
    ensures ok ==> lines == Lines(row, node, keys) + [Route(node, node, 0)]
    ensures !ok ==> exists j :: 0 <= j < |keys| && keys[j] != node && keys[j] !in hop &&
                                (forall d :: d in keys[..j] && d != node ==> d in hop && d in row && row[d] == (hop[d], cost[d].n)) &&
                                lines == Lines(row, node, keys[..j])
  {
    row := base;
    lines := [];
    for j := 0 to |keys|
      invariant Filled(node, base, cost, hop, keys[..j], row, lines)
    {
      var dest := keys[j];
      assert keys[..j + 1] == keys[..j] + [dest];
      if dest != node && dest !in hop {
        assert forall d :: d in keys[..j] ==> d in keys;
        return false, row, lines;
      }
      assert dest !in keys[..j] by {
        forall k | 0 <= k < j ensures keys[..j][k] != dest { assert keys[k] != keys[j]; }
      }
      FillStep(node, base, cost, hop, keys[..j], row, lines, dest);
      if dest != node {
        row, lines := row[dest := (hop[dest], cost[dest].n)], lines + [Route(dest, hop[dest], cost[dest].n)];
      }
    }
    assert keys[..|keys|] == keys;
    var row' := row[node := (node, 0)];
    LinesAgree(row, row', node, keys);
    row := row';
    lines := lines + [Route(node, node, 0)];
    ok := true;
  }

  /** The loop invariant of `FillRow` after the keys `done`. */
  ghost predicate Filled(node: int, base: map<int, (int, int)>, cost: map<int, Cost>, hop: map<int, int>,
                         done: seq<int>, row: map<int, (int, int)>, lines: seq<Record>)
  {
    && (forall d :: d in row ==> d in base || d in done)
    && (forall d :: d in base ==> d in row)
    && (forall d :: d in done && d != node ==> d in hop && d in cost && cost[d].Fin? && d in row && row[d] == (hop[d], cost[d].n))
    && lines == Lines(row, node, done)
  }

  /** One write of the loop at lines 87-91 keeps the invariant. */
  lemma FillStep(node: int, base: map<int, (int, int)>, cost: map<int, Cost>, hop: map<int, int>,
                 done: seq<int>, row: map<int, (int, int)>, lines: seq<Record>, dest: int)
    requires Filled(node, base, cost, hop, done, row, lines) && dest !in done
    requires dest != node ==> dest in hop && dest in cost && cost[dest].Fin?
    ensures dest == node ==> Filled(node, base, cost, hop, done + [dest], row, lines)
    ensures dest != node ==>
      Filled(node, base, cost, hop, done + [dest], row[dest := (hop[dest], cost[dest].n)],
             lines + [Route(dest, hop[dest], cost[dest].n)])
  {
    assert (done + [dest])[..|done|] == done;
    if dest != node {
      LinesAgree(row, row[dest := (hop[dest], cost[dest].n)], node, done);
    }
  }

  /** What a search followed by the table write gives for `node`. */
  lemma BuiltRow(t: Topology, node: int, cost: map<int, Cost>, hop: map<int, int>, keys: seq<int>,
                 base: map<int, (int, int)>, ok: bool, row: map<int, (int, int)>, lines: seq<Record>)
    requires WellFormed(t) && node in t.graph && Searched(t, node, cost, hop, keys)
    requires base.Keys <= t.graph.Keys
    requires ok <==> forall d :: d in keys && d != node ==> d in hop
    requires forall d :: d in row ==> d in base || d in keys || d == node
    requires ok ==> (forall d :: d in base || d in keys ==> d in row) && node in row && row[node] == (node, 0)
    requires ok ==> forall d :: d in keys && d != node ==> row[d] == (hop[d], cost[d].n)
    ensures ok <==> AllReach(t.graph, node)
    ensures row.Keys <= t.graph.Keys
    ensures ok ==> RowCorrect(t.graph, node, row)
  {
    SearchedReach(t, node, cost, hop, keys);
    KeyOrderElems(t, node);
    forall d | d in row ensures d in t.graph {
      if d !in base && d != node { assert d in Elems(keys); }
    }
    if ok {
      forall d | d in t.graph ensures d in row { assert d in Elems(keys); }
      SearchedRow(t, node, cost, hop, keys, row);
    }
  }

  /** Lines 44-93 for one `node` on values: the search from `node`, then the
      table write onto `base`, the table found for `node` (or a fresh one).
      The write succeeds exactly when every node is reachable from `node`;
      it then yields a correct row and the lines of that row in the key
      order of the cost dict. */
  method ComputeTable(t: Topology, node: int, base: map<int, (int, int)>)
    returns (ok: bool, row: map<int, (int, int)>, lines: seq<Record>)
    requires WellFormed(t) && node in t.graph && base.Keys <= t.graph.Keys
    ensures ok <==> AllReach(t.graph, node)
    ensures row.Keys <= t.graph.Keys
    ensures ok ==> RowCorrect(t.graph, node, row) && forall d :: d in KeyOrder(t, node) ==> d in row
    ensures ok ==> lines == Lines(row, node, KeyOrder(t, node)) + [Route(node, node, 0)]
  {
    ghost var rounds;
    var cost, hop, keys;
    cost, hop, keys, rounds := RouteFrom(t, node);
    ok, row, lines := FillRow(node, base, cost, hop, keys);
    BuiltRow(t, node, cost, hop, keys, base, ok, row, lines);
    assert forall d :: d in keys ==> d in Elems(keys);
  }

  /** A correct row covers the key order of its cost dict. */
  lemma CorrectCovers(t: Topology, tabs: Tables, node: int, row: map<int, (int, int)>)
    requires WellFormed(t) && node in t.graph && RowCorrect(t.graph, node, row)
    ensures Covers(t, tabs[node := row], node)
    ensures Block(t, tabs[node := row], node) == Lines(row, node, KeyOrder(t, node)) + [Route(node, node, 0)]
  {
    KeyOrderElems(t, node);
  }

  /** Writing the table of one more node extends the log by its block and
      leaves the blocks of the nodes before it unchanged. */
  lemma {:induction false} LogStep(t: Topology, tabs1: Tables, tabs2: Tables, nodes: seq<int>, node: int)
    requires forall n :: n in nodes ==> n in tabs1
    requires node !in nodes && node in tabs2 && tabs2 == tabs1[node := tabs2[node]]
    ensures TableLog(t, tabs2, nodes + [node]) == TableLog(t, tabs1, nodes) + Block(t, tabs2, node)
  {
    TableLogAgree(t, tabs1, tabs2, nodes);
    assert (nodes + [node])[..|nodes|] == nodes;
  }

  /** The table of `n` is built and correct. */
  ghost predicate Built(t: Topology, tabs: Tables, n: int)
    requires WellFormed(t)
  {
    n in t.graph && n in tabs && RowCorrect(t.graph, n, tabs[n]) && AllReach(t.graph, n) && Covers(t, tabs, n)
  }

  lemma BuiltFrame(t: Topology, tabs1: Tables, tabs2: Tables, n: int)
    requires WellFormed(t) && Built(t, tabs1, n) && n in tabs2 && tabs2[n] == tabs1[n]
    ensures Built(t, tabs2, n)
  {
  }

  /** The invariant of the loop at line 44 after the nodes `done`: their
      tables are correct and written, in order, and every table mentions
      known nodes only. */
  ghost predicate TablesUpTo(t: Topology, done: seq<int>, tabs: Tables, log: seq<Record>)
    requires WellFormed(t)
  {
    && Within(tabs, t.graph)
    && (forall n :: n in done ==> Built(t, tabs, n))
    && log == TableLog(t, tabs, done)
  }

  lemma LogAfter(t: Topology, tabs: Tables, done: seq<int>, log: seq<Record>,
                 node: int, row: map<int, (int, int)>, lines: seq<Record>)
    requires WellFormed(t) && node in t.graph && node !in done && RowCorrect(t.graph, node, row)
    requires (forall n :: n in done ==> n in tabs) && log == TableLog(t, tabs, done)
    requires lines == Lines(row, node, KeyOrder(t, node)) + [Route(node, node, 0)]
    ensures log + lines == TableLog(t, tabs[node := row], done + [node])
  {
    CorrectCovers(t, tabs, node, row);
    LogStep(t, tabs, tabs[node := row], done, node);
  }

  lemma BuiltAfter(t: Topology, tabs: Tables, done: seq<int>, node: int, row: map<int, (int, int)>)
    requires WellFormed(t) && node in t.graph && RowCorrect(t.graph, node, row) && AllReach(t.graph, node)
    requires forall n :: n in done ==> Built(t, tabs, n)
    ensures forall n :: n in done + [node] ==> Built(t, tabs[node := row], n)
  {
    var tabs' := tabs[node := row];
    CorrectCovers(t, tabs, node, row);
    forall n | n in done + [node] ensures Built(t, tabs', n) {
      if n != node {
        assert n in done;
        BuiltFrame(t, tabs, tabs', n);
      }
    }
  }

  lemma TablesIntro(t: Topology, done: seq<int>, tabs: Tables, log: seq<Record>)
    requires WellFormed(t)
    requires Within(tabs, t.graph)
    requires forall n :: n in done ==> Built(t, tabs, n)
    requires log == TableLog(t, tabs, done)
    ensures TablesUpTo(t, done, tabs, log)
  {
  }

  /** One more node whose table was built keeps the invariant. */
  lemma TablesStep(t: Topology, done: seq<int>, tabs: Tables, log: seq<Record>,
                   node: int, row: map<int, (int, int)>, lines: seq<Record>)
    requires WellFormed(t) && TablesUpTo(t, done, tabs, log)
    requires node in t.graph && node !in done && row.Keys <= t.graph.Keys
    requires RowCorrect(t.graph, node, row) && AllReach(t.graph, node)
    requires lines == Lines(row, node, KeyOrder(t, node)) + [Route(node, node, 0)]
    ensures TablesUpTo(t, done + [node], tabs[node := row], log + lines)
  {
    var tabs' := tabs[node := row];
    LogAfter(t, tabs, done, log, node, row, lines);
    BuiltAfter(t, tabs, done, node, row);
    WithinPut(tabs, t.graph, node, row);
    TablesIntro(t, done + [node], tabs', log + lines);
  }

  /** The next node of the loop at line 44 is a new node of the graph. */
  lemma NextNode(t: Topology, i: int)
    requires WellFormed(t) && 0 <= i < |t.order|
    ensures t.order[i] in t.graph && t.order[i] !in t.order[..i]
    ensures t.order[..i + 1] == t.order[..i] + [t.order[i]]
  {
    assert t.order[i] in Elems(t.order);
    forall k | 0 <= k < i ensures t.order[..i][k] != t.order[i] { assert t.order[k] != t.order[i]; }
  }

  lemma TablesStart(t: Topology, tabs0: Tables)
    requires WellFormed(t) && Within(tabs0, t.graph)
    ensures TablesUpTo(t, [], tabs0, [])
  {
    TablesIntro(t, [], tabs0, []);
  }

  lemma DoneConnected(t: Topology, tabs: Tables, log: seq<Record>)
    requires WellFormed(t) && TablesUpTo(t, t.order, tabs, log)
    ensures Connected(t.graph)
  {
    forall s | s in t.graph ensures AllReach(t.graph, s) {
      assert s in Elems(t.order);
      assert Built(t, tabs, s);
    }
  }

  lemma DoneRows(t: Topology, tabs: Tables, log: seq<Record>)
    requires WellFormed(t) && TablesUpTo(t, t.order, tabs, log)
    ensures forall n :: n in t.graph ==> n in tabs && RowCorrect(t.graph, n, tabs[n])
  {
    forall n | n in t.graph ensures n in tabs && RowCorrect(t.graph, n, tabs[n]) {
      assert n in Elems(t.order);
      assert Built(t, tabs, n);
    }
  }

  /** After every node: the graph is connected and every table is correct. */
  lemma TablesDone(t: Topology, tabs: Tables, log: seq<Record>)
    requires WellFormed(t) && TablesUpTo(t, t.order, tabs, log)
    ensures Within(tabs, t.graph) && Connected(t.graph)
    ensures TablesCorrect(t.graph, tabs)
    ensures (forall n :: n in t.order ==> Covers(t, tabs, n)) && log == TableLog(t, tabs, t.order)
  {
    DoneConnected(t, tabs, log);
    DoneRows(t, tabs, log);
    forall n | n in tabs ensures n in t.graph {
      assert Within(tabs, t.graph);
    }
    SameKeys(tabs, t.graph);
  }

  lemma StopBuilt(t: Topology, tabs: Tables, done: seq<int>, node: int, row: map<int, (int, int)>)
    requires WellFormed(t) && node !in done && forall n :: n in done ==> Built(t, tabs, n)
    ensures forall n :: n in done ==> Built(t, tabs[node := row], n)
  {
    forall n | n in done ensures Built(t, tabs[node := row], n) {
      BuiltFrame(t, tabs, tabs[node := row], n);
    }
  }

  /** Node `t.order[i]` cannot reach every node: the run stops after its
      partial table. */
  lemma TablesStop(t: Topology, i: int, tabs: Tables, log: seq<Record>,
                   row: map<int, (int, int)>, lines: seq<Record>)
    requires WellFormed(t) && 0 <= i < |t.order| && TablesUpTo(t, t.order[..i], tabs, log)
    requires !AllReach(t.graph, t.order[i]) && row.Keys <= t.graph.Keys
    ensures Within(tabs[t.order[i] := row], t.graph) && !Connected(t.graph)
    ensures exists j :: 0 <= j < |t.order| && !AllReach(t.graph, t.order[j]) &&
                        (forall n :: n in t.order[..j] ==> Built(t, tabs[t.order[i] := row], n)) &&
                        TableLog(t, tabs[t.order[i] := row], t.order[..j]) <= log + lines
  {
    var node := t.order[i];
    NextNode(t, i);
    WithinPut(tabs, t.graph, node, row);
    StopBuilt(t, tabs, t.order[..i], node, row);
    TableLogAgree(t, tabs, tabs[node := row], t.order[..i]);
  }

  /** One round of the loop at line 44, for node `t.order[i]`: build its
      table and append its lines. When the node cannot reach every node the
      run stops (`ok` is false) after its partial table. */
  method NextTable(t: Topology, i: int, tabs: Tables, log: seq<Record>)
    returns (ok: bool, tabs': Tables, log': seq<Record>)
    requires WellFormed(t) && 0 <= i < |t.order| && TablesUpTo(t, t.order[..i], tabs, log)
    ensures ok ==> TablesUpTo(t, t.order[..i + 1], tabs', log')
    ensures !ok ==> Within(tabs', t.graph) && !Connected(t.graph)
    ensures !ok ==> exists j :: 0 <= j < |t.order| && !AllReach(t.graph, t.order[j]) &&
                               (forall n :: n in t.order[..j] ==> Built(t, tabs', n)) &&
                               TableLog(t, tabs', t.order[..j]) <= log'
  {
    var node := t.order[i];
    NextNode(t, i);
    var base := if node in tabs then tabs[node] else map[];
    var row, lines;
    ok, row, lines := ComputeTable(t, node, base);
    if !ok {
      TablesStop(t, i, tabs, log, row, lines);
    } else {
      TablesStep(t, t.order[..i], tabs, log, node, row, lines);
    }
    tabs', log' := tabs[node := row], log + lines;
  }

  /** Lines 42-93 on values: build and write the table of every node, in
      the key order of `graphNodes`, starting from the tables `tabs0` of the
      previous run. The first node that cannot reach every node ends the run
      with a KeyError (`ok` is false) after its partial table; the tables
      and lines of the nodes before it are complete. */
  method ComputeTables(t: Topology, tabs0: Tables) returns (ok: bool, tabs: Tables, log: seq<Record>)
    requires WellFormed(t) && Within(tabs0, t.graph)
    ensures Within(tabs, t.graph)
    ensures ok <==> Connected(t.graph)
    ensures ok ==> TablesCorrect(t.graph, tabs)
    ensures ok ==> (forall n :: n in t.order ==> Covers(t, tabs, n)) && log == TableLog(t, tabs, t.order)
    ensures !ok ==> exists i :: 0 <= i < |t.order| && !AllReach(t.graph, t.order[i]) &&
                               (forall n :: n in t.order[..i] ==> Built(t, tabs, n)) &&
                               TableLog(t, tabs, t.order[..i]) <= log
  {
    tabs := tabs0;
    log := [];
    TablesStart(t, tabs0);
    for i := 0 to |t.order|
      invariant TablesUpTo(t, t.order[..i], tabs, log)
    {
      ok, tabs, log := NextTable(t, i, tabs, log);
      if !ok {
        return;
      }
    }
    assert t.order[..|t.order|] == t.order;
    TablesDone(t, tabs, log);
    ok := true;
  }

  lemma SameKeys(tabs: Tables, g: Graph)
    requires forall n :: n in tabs ==> n in g
    requires forall n :: n in g ==> n in tabs
    ensures tabs.Keys == g.Keys
  {
    assert forall n :: n in tabs.Keys <==> n in g.Keys;
  }

  lemma WithinPut(tabs: Tables, g: Graph, n: int, row: map<int, (int, int)>)
    requires Within(tabs, g) && n in g && row.Keys <= g.Keys
    ensures Within(tabs[n := row], g)
  {
  }

  /** Every node has a correct table. */
  ghost predicate TablesCorrect(g: Graph, tabs: Tables)
  {
    tabs.Keys == g.Keys && forall n :: n in g ==> RowCorrect(g, n, tabs[n])
  }

  /** The delivery line of one message (lines 113-119): a message whose
      source has a table entry for its destination goes to the next hop of
      that entry at its cost; any other is reported unreachable. */
  function Deliver(tabs: Tables, m: Message): Record
  {
    var (source, dest, payload) := m;
    if source in tabs && dest in tabs[source] then
      Delivery(source, dest, Fin(tabs[source][dest].1), Via([source, tabs[source][dest].0]), payload)
    else
      Delivery(source, dest, Inf, Unreachable, payload)
  }

  /** The delivery lines of `msgs`, in list order. */
  function Deliveries(tabs: Tables, msgs: seq<Message>): seq<Record>
    decreases |msgs|
  {
    if msgs == [] then [] else Deliveries(tabs, msgs[..|msgs| - 1]) + [Deliver(tabs, msgs[|msgs| - 1])]
  }

  /** One line per message, in list order, each about that message. */
  lemma {:induction false} DeliveriesSpec(tabs: Tables, msgs: seq<Message>)
    ensures |Deliveries(tabs, msgs)| == |msgs|
    ensures forall i :: 0 <= i < |msgs| ==> Deliveries(tabs, msgs)[i] == Deliver(tabs, msgs[i])
    ensures forall i :: 0 <= i < |msgs| ==>
      Deliveries(tabs, msgs)[i].Delivery? && Deliveries(tabs, msgs)[i].source == msgs[i].0 &&
      Deliveries(tabs, msgs)[i].dest == msgs[i].1 && Deliveries(tabs, msgs)[i].payload == msgs[i].2
    decreases |msgs|
  {
    if msgs != [] {
      DeliveriesSpec(tabs, msgs[..|msgs| - 1]);
    }
  }

  /** With correct tables a message between two known nodes travels over
      a real walk: the hops are the source and a neighbour of it (the source
      itself when it sends to itself, at cost 0), the cost is that of a walk
      leaving through the hop and, when no link cost is negative, the
      shortest. A message naming an unknown node is unreachable. */
  lemma DeliverCorrect(g: Graph, tabs: Tables, m: Message)
    requires TablesCorrect(g, tabs)
    ensures Deliver(tabs, m).source == m.0 && Deliver(tabs, m).dest == m.1 && Deliver(tabs, m).payload == m.2
    ensures Deliver(tabs, m).hops.Via? <==> m.0 in g && m.1 in g
    ensures Deliver(tabs, m).hops.Unreachable? ==> Deliver(tabs, m).pathCost == Inf
    ensures Deliver(tabs, m).hops.Via? ==>
      var (h, c) := (Deliver(tabs, m).hops.nodes[1], Deliver(tabs, m).pathCost);
      && |Deliver(tabs, m).hops.nodes| == 2 && Deliver(tabs, m).hops.nodes[0] == m.0 && c.Fin?
      && (m.0 == m.1 ==> h == m.0 && c.n == 0)
      && (m.0 != m.1 ==> h in g[m.0] && HasRoute(g, m.0, m.1, h, c.n))
      && (NonNegative(g) ==> Shortest(g, m.0, m.1, c.n))
  {
    if m.0 in g && m.1 in g {
      assert RowCorrect(g, m.0, tabs[m.0]);
    }
  }

  /** The output of one round of the run: the tables, then the deliveries. */
  ghost function Stage(t: Topology, tabs: Tables, msgs: seq<Message>): seq<Record>
  {
    TableLog(t, tabs, t.order) + Deliveries(tabs, msgs)
  }

  /** Lines 172-182 succeed: the first topology is connected and every
      change applies and leaves a connected topology. */
  ghost predicate RunWorks(t0: Topology, chs: seq<Edge>)
    decreases |chs|
  {
    if chs == [] then Connected(t0.graph)
    else
      var pre := chs[..|chs| - 1];
      RunWorks(t0, pre) && StepWorks(ApplyAll(t0, pre), chs[|chs| - 1])
  }

  /** Change `ch` applies to topology `t` and leaves a connected
      topology. */
  ghost predicate StepWorks(t: Topology, ch: Edge)
  {
    Applicable(t, ch) && Connected(ApplyChange(t, ch).graph)
  }

  /** The output of a run: one stage for the first topology and one after
      each change, the tables of stage k being `snaps[k]`. */
  ghost function RunLog(t0: Topology, chs: seq<Edge>, snaps: seq<Tables>, msgs: seq<Message>): seq<Record>
    requires |snaps| == |chs| + 1
    decreases |chs|
  {
    if chs == [] then Stage(t0, snaps[0], msgs)
    else RunLog(t0, chs[..|chs| - 1], snaps[..|snaps| - 1], msgs) + Stage(ApplyAll(t0, chs), snaps[|snaps| - 1], msgs)
  }

  lemma ApplyOne(t: Topology, ch: Edge, chs: seq<Edge>, i: int)
    requires 0 <= i < |chs| && ch == chs[i]
    ensures chs[..i + 1][..i] == chs[..i] && chs[..i + 1][i] == ch
    ensures AllApplicable(t, [ch]) == Applicable(t, ch) && ApplyAll(t, [ch]) == ApplyChange(t, ch)
  {
    assert [ch][..0] == [];
  }

  /** The run over the first i + 1 changes works exactly when the run
      over the first i does and change i works on the topology they leave. */
  lemma RunWorksStep(t0: Topology, chs: seq<Edge>, i: int)
    requires 0 <= i < |chs|
    ensures RunWorks(t0, chs[..i + 1]) <==> RunWorks(t0, chs[..i]) && StepWorks(ApplyAll(t0, chs[..i]), chs[i])
  {
    assert chs[..i + 1][..i] == chs[..i];
  }

  /** A run that works works on every prefix of its changes: once a change
      fails, so does every longer run. */
  lemma {:induction false} RunWorksPrefix(t0: Topology, chs: seq<Edge>, j: int)
    requires 0 <= j <= |chs| && RunWorks(t0, chs)
    ensures RunWorks(t0, chs[..j])
    decreases |chs|
  {
    if j == |chs| {
      assert chs[..j] == chs;
    } else {
      var pre := chs[..|chs| - 1];
      assert pre[..j] == chs[..j];
      RunWorksPrefix(t0, pre, j);
    }
  }

  lemma SnapsStep(t0: Topology, chs: seq<Edge>, i: int, snaps: seq<Tables>, tabs: Tables, msgs: seq<Message>)
    requires 0 <= i < |chs| && |snaps| == i + 1
    ensures RunLog(t0, chs[..i + 1], snaps + [tabs], msgs) ==
            RunLog(t0, chs[..i], snaps, msgs) + Stage(ApplyAll(t0, chs[..i + 1]), tabs, msgs)
  {
    assert chs[..i + 1][..i] == chs[..i];
    assert (snaps + [tabs])[..|snaps|] == snaps;
  }

  lemma SnapsCorrect(t0: Topology, chs: seq<Edge>, i: int, snaps: seq<Tables>, tabs: Tables)
    requires 0 <= i < |chs| && |snaps| == i + 1
    requires forall k :: 0 <= k <= i ==> TablesCorrect(ApplyAll(t0, chs[..k]).graph, snaps[k])
    requires TablesCorrect(ApplyAll(t0, chs[..i + 1]).graph, tabs)
    ensures forall k :: 0 <= k <= i + 1 ==> TablesCorrect(ApplyAll(t0, chs[..k]).graph, (snaps + [tabs])[k])
  {
    forall k | 0 <= k <= i + 1 ensures TablesCorrect(ApplyAll(t0, chs[..k]).graph, (snaps + [tabs])[k]) {
      if k <= i { assert (snaps + [tabs])[k] == snaps[k]; }
    }
  }

  class Router {
    /** graphNodes with the key orders of both dict levels. */
    var graph: Graph
    var nbrs: map<int, seq<int>>
    var order: seq<int>
    /** forwardingTables */
    var tables: Tables
    var messages: seq<Message>
    /** The lines appended to the output file. */
    var out: seq<Record>

    function Topo(): Topology
      reads this
    {
      Topology(graph, nbrs, order)
    }

    ghost predicate Valid()
      reads this
    {
      WellFormed(Topo()) && Within(tables, graph)
    }

    /** Lines 22-25: an empty topology, no tables and no messages. */
    constructor()
      ensures Valid()
      ensures graph == map[] && nbrs == map[] && order == []
      ensures tables == map[] && messages == [] && out == []
    {
      graph, nbrs, order := map[], map[], [];
      tables, messages, out := map[], [], [];
    }

    /** Reading `graphNodes[a]`: the defaultdict inserts an empty row for an
        unknown node. */
    method Missing(a: int)
      modifies this
      ensures Topo() == Touch(old(Topo()), a)
      ensures tables == old(tables) && messages == old(messages) && out == old(out)
    {
      if a !in graph {
        graph := graph[a := map[]];
        nbrs := nbrs[a := []];
        order := order + [a];
      }
    }

    /** `graphNodes[a][b] = c`. */
    method Set(a: int, b: int, c: int)
      requires Ordered(Topo())
      modifies this
      ensures Topo() == Put(old(Topo()), a, b, c)
      ensures tables == old(tables) && messages == old(messages) && out == old(out)
    {
      Missing(a);
      TouchSpec(old(Topo()), a);
      if b !in graph[a] {
        nbrs := nbrs[a := nbrs[a] + [b]];
      }
      graph := graph[a := graph[a][b := c]];
    }

    /** Lines 35-36 and 149-150: store the link (a, b) with cost c in both
        directions. */
    method AddLink(a: int, b: int, c: int)
      requires Valid()
      modifies this
      ensures Valid()
      ensures Topo() == Linked(old(Topo()), a, b, c)
      ensures tables == old(tables) && messages == old(messages) && out == old(out)
    {
      ghost var t := Topo();
      Set(a, b, c);
      PutOrdered(t, a, b, c, Topo());
      Set(b, a, c);
      LinkedSpec(t, a, b, c);
    }

    /** Lines 141-147: delete both directions of the link (a, b). The first
        `del` is unguarded: when the link is absent it raises a KeyError
        (`ok` is false) after the defaultdict read has created a row for `a`.
        A KeyError of the second `del` is swallowed. */
    method Remove(a: int, b: int) returns (ok: bool)
      requires Valid()
      modifies this
      ensures Valid()
      ensures ok == HasEdge(old(graph), a, b)
      ensures Topo() == if ok then Unlinked(old(Topo()), a, b) else Touch(old(Topo()), a)
      ensures tables == old(tables) && messages == old(messages) && out == old(out)
    {
      ghost var t := Topo();
      ghost var tabs := tables;
      var g, ns, ord := graph, nbrs, order;
      // `graphNodes[change[0]]` is a defaultdict read
      if a !in g {
        g, ns, ord := g[a := map[]], ns[a := []], ord + [a];
      }
      if b !in g[a] {
        graph, nbrs, order := g, ns, ord;
        TouchWellFormed(t, a);
        WithinGrow(tabs, t.graph, graph);
        return false;
      }
      g := g[a := g[a] - {b}];
      ns := ns[a := Without(ns[a], b)];
      ghost var u := Topology(g, ns, ord);
      assert u == Drop(t, a, b);
      // the link is stored both ways, so reading `graphNodes[b]` (line 145)
      // finds a row and inserts none
      assert b in g;
      if a in g[b] {
        g := g[b := g[b] - {a}];
        ns := ns[b := Without(ns[b], a)];
        assert Topology(g, ns, ord) == Drop(u, b, a);
      }
      assert Topology(g, ns, ord) == Unlinked(t, a, b);
      UnlinkedSpec(t, a, b);
      WithinGrow(tabs, t.graph, g);
      graph, nbrs, order := g, ns, ord;
      ok := true;
    }
  
    /** Lines 33-36 without the file reading: each topology entry inserted
        in both directions, in file order. */
    method LoadTopology(edges: seq<Edge>)
      requires Valid()
      modifies this
      ensures Valid()
      ensures Topo() == LoadAll(old(Topo()), edges)
      ensures tables == old(tables) && messages == old(messages) && out == old(out)
    {
      for i := 0 to |edges|
        invariant Valid()
        invariant Topo() == LoadAll(old(Topo()), edges[..i])
        invariant tables == old(tables) && messages == old(messages) && out == old(out)
      {
        assert edges[..i + 1][..i] == edges[..i];
        AddLink(edges[i].0, edges[i].1, edges[i].2);
      }
      assert edges[..|edges|] == edges;
    }

    /** Lines 139-150: apply the changes in order. A removal of an absent
        link raises a KeyError that ends the run (`ok` is false); the changes
        before it have been applied and the failing one has left the row the
        defaultdict created. */
    method ApplyTopologyChange(chs: seq<Edge>) returns (ok: bool)
      requires Valid()
      modifies this
      ensures Valid()
      ensures ok == AllApplicable(old(Topo()), chs)
      ensures ok ==> Topo() == ApplyAll(old(Topo()), chs)
      ensures !ok ==>
        exists k :: 0 <= k < |chs| && AllApplicable(old(Topo()), chs[..k]) &&
                    !Applicable(ApplyAll(old(Topo()), chs[..k]), chs[k]) &&
                    Topo() == Touch(ApplyAll(old(Topo()), chs[..k]), chs[k].0)
      ensures tables == old(tables) && messages == old(messages) && out == old(out)
    {
      ghost var t := Topo();
      for i := 0 to |chs|
        invariant Valid()
        invariant AllApplicable(t, chs[..i]) && Topo() == ApplyAll(t, chs[..i])
        invariant tables == old(tables) && messages == old(messages) && out == old(out)
      {
        var ch := chs[i];
        assert chs[..i + 1][..i] == chs[..i] && chs[..i + 1][i] == ch;
        if ch.2 == REMOVE {
          var removed := Remove(ch.0, ch.1);
          if !removed {
            assert !AllApplicable(t, chs) by {
              if AllApplicable(t, chs) {
                AllApplicablePrefix(t, chs, i);
              }
            }
            return false;
          }
        } else {
          AddLink(ch.0, ch.1, ch.2);
        }
      }
      assert chs[..|chs|] == chs;
      ok := true;
    }
  
    /** Lines 42-93: build and write the table of every node. */
    method BuildTables() returns (ok: bool)
      requires Valid()
      modifies this
      ensures Valid() && Topo() == old(Topo()) && messages == old(messages)
      ensures ok <==> Connected(graph)
      ensures old(out) <= out
      ensures ok ==> TablesCorrect(graph, tables)
      ensures ok ==> (forall n :: n in order ==> Covers(Topo(), tables, n)) &&
                     out == old(out) + TableLog(Topo(), tables, order)
    {
      var t := Topo();
      var tabs, log;
      ok, tabs, log := ComputeTables(t, tables);
      tables, out := tabs, out + log;
      assert Topo() == t;
    }

    /** Line 103 without the file reading: the messages are appended. */
    method AddMessages(msgs: seq<Message>)
      modifies this
      ensures messages == old(messages) + msgs
      ensures Topo() == old(Topo()) && tables == old(tables) && out == old(out)
    {
      messages := messages + msgs;
    }

    /** Lines 109-119: one delivery line per stored message, in order. */
    method SendMessages()
      modifies this
      ensures out == old(out) + Deliveries(tables, messages)
      ensures Topo() == old(Topo()) && tables == old(tables) && messages == old(messages)
    {
      var log: seq<Record> := [];
      for i := 0 to |messages|
        invariant log == Deliveries(tables, messages[..i])
      {
        assert messages[..i + 1][..i] == messages[..i];
        log := log + [Deliver(tables, messages[i])];
      }
      assert messages[..|messages|] == messages;
      out := out + log;
    }

    /** Lines 180-182: apply one change, rebuild the tables and resend. */
    method Step(ch: Edge) returns (ok: bool)
      requires Valid()
      modifies this
      ensures Valid() && messages == old(messages) && old(out) <= out
      ensures ok <==> Applicable(old(Topo()), ch) && Connected(ApplyChange(old(Topo()), ch).graph)
      ensures ok ==> Topo() == ApplyChange(old(Topo()), ch) && TablesCorrect(graph, tables)
      ensures ok ==> out == old(out) + Stage(Topo(), tables, messages)
    {
      ghost var t := Topo();
      ApplyOne(t, ch, [ch], 0);
      ok := ApplyTopologyChange([ch]);
      if !ok {
        return;
      }
      ok := BuildTables();
      if !ok {
        return;
      }
      SendMessages();
      Assoc(old(out), TableLog(Topo(), tables, order), Deliveries(tables, messages));
    }

    /** Lines 172-182 without the file checks: load the topology, build and
        write the tables, store and send the messages, then apply the
        changes one at a time, each followed by a rebuild and a resend. An
        exception ends the run (`ok` is false) with the lines written so far.
        `snaps` are the tables of each stage. */
    method Run(topology: seq<Edge>, msgs: seq<Message>, changes: seq<Edge>) returns (ok: bool, ghost snaps: seq<Tables>)
      requires Valid()
      modifies this
      ensures Valid() && old(out) <= out
      ensures ok <==> RunWorks(LoadAll(old(Topo()), topology), changes)
      ensures ok ==> Topo() == ApplyAll(LoadAll(old(Topo()), topology), changes)
      ensures ok ==> messages == old(messages) + msgs
      ensures ok ==> |snaps| == |changes| + 1 && tables == snaps[|changes|] &&
                     (forall k :: 0 <= k <= |changes| ==>
                        TablesCorrect(ApplyAll(LoadAll(old(Topo()), topology), changes[..k]).graph, snaps[k]))
      ensures ok ==> out == old(out) + RunLog(LoadAll(old(Topo()), topology), changes, snaps, messages)
    {
      LoadTopology(topology);
      ghost var t0 := Topo();
      ghost var out0 := old(out);
      snaps := [];
      ok := BuildTables();
      if !ok {
        assert changes[..0] == [];
        if RunWorks(t0, changes) {
          RunWorksPrefix(t0, changes, 0);
        }
        return;
      }
      AddMessages(msgs);
      SendMessages();
      snaps := [tables];
      assert changes[..0] == [];
      Assoc(out0, TableLog(t0, tables, order), Deliveries(tables, messages));
      for i := 0 to |changes|
        invariant Valid() && out0 <= out && messages == old(messages) + msgs
        invariant Topo() == ApplyAll(t0, changes[..i]) && RunWorks(t0, changes[..i])
        invariant |snaps| == i + 1 && snaps[i] == tables && forall k :: 0 <= k <= i ==> TablesCorrect(ApplyAll(t0, changes[..k]).graph, snaps[k])
        invariant out == out0 + RunLog(t0, changes[..i], snaps, messages)
      {
        ghost var t := Topo();
        ghost var log := out;
        ok := Step(changes[i]);
        assert changes[..i + 1][..i] == changes[..i];
        assert ApplyAll(t0, changes[..i + 1]) == ApplyChange(t, changes[i]);
        RunWorksStep(t0, changes, i);
        if !ok {
          if RunWorks(t0, changes) {
            RunWorksPrefix(t0, changes, i + 1);
          }
          return;
        }
        SnapsStep(t0, changes, i, snaps, tables, messages);
        SnapsCorrect(t0, changes, i, snaps, tables);
        Assoc(out0, RunLog(t0, changes[..i], snaps, messages), Stage(Topo(), tables, messages));
        snaps := snaps + [tables];
      }
      assert changes[..|changes|] == changes;
      ok := true;
    }
}
}
