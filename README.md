# Distance-vector router, modelled in Dafny

This project models the `Router` class of `src/DistanceVector.py`, a simulated
packet network. The router:

- keeps a topology store `graphNodes` (a defaultdict of dicts: node → neighbour → link cost);
- builds a forwarding table for every node with a Dijkstra-style search (`forwarding_table`);
- writes each table to the output file;
- delivers the stored messages through the tables (`send_messages`);
- replays a list of topology changes (`apply_topology_change`), rebuilding the
  tables and re-sending the messages after each change (`run`).

The model works on values where the source computes and on a `class` where the
source updates fields:

- `sequences.dfy` (`Sequences`): sequence helpers that describe the
  insertion order of Python dicts. `Extend` is the key order after reads with
  insert-on-miss semantics. `Without` is the key order after `del`.
- `graphs.dfy` (`Graphs`): the store as a `Topology`. It holds the
  dict of dicts, the neighbour order of each row and the node order, because
  both the search and the output follow dict order. The file also defines the
  store's operations: the defaultdict read (`Touch`), one assignment (`Put`),
  one `del` (`Drop`), a two-way insertion (`Linked`), a removal (`Unlinked`)
  and one change (`ApplyChange`). It proves what each does to the links and
  to the node set.
- `paths.dfy` (`Paths`): walks and their weights. Results are specified in these terms:
  - reachability;
  - shortest distance;
  - a route that leaves through a given next hop.
- `routing.dfy` (`RouteSearch`): the per-source search of lines 49-85.
  - It seeds the costs, then runs the selection scan (strict `<`, so ties
    go to the first node in dict order) and the relaxation.
  - Each is a method with a loop, proved against a specification.
  - `RouteFrom` returns the costs, the next hops and the key order of
    the `cost` dict.
- `router.dfy` (`DistanceVector`): the table write of lines 87-93
  (`FillRow`), all nodes' tables (`ComputeTables`), message delivery
  (`Deliver`, `Deliveries`), the run as a whole (`RunWorks`, `RunLog`), and
  the `Router` class. The class's fields are the store, `forwardingTables`,
  `messages` and the output file. The output file is modelled as the
  sequence of records appended to it.
- `scenarios.dfy` (`Scenarios`): concrete runs on a triangle whose
  direct link 1 - 3 (cost 20) is dearer than the detour through 2 (5 + 5).

Several source behaviours are modelled as results rather than crashes:

- **Removing an absent link.** It raises a KeyError at line 142.
  `Remove`, `ApplyTopologyChange` and `Step` then return `ok == false`.
  Before the error, the defaultdict read has added an empty row for the first
  endpoint.
- **A node that cannot reach every node.** It makes `nextHop[dest]` raise a
  KeyError at line 89. Building fails exactly when the topology is not
  connected. The tables and lines of the nodes before that node are complete.
- **Self-loops.** The second `del` at line 145 fails only for a self-loop,
  and the `try` swallows that error. The model takes that branch with an
  `if`.
- **Infinite cost.** `float('inf')` becomes the `Cost` datatype (`Fin(n)` or `Inf`).

Behaviours of the code that the contracts pin down:

- **Absent-link removal.** It is not a no-op. The code raises a KeyError
  (line 142), which ends the run.
- **Unreachable destinations.** They do not get a missing or infinite entry.
  The code raises a KeyError at line 89 while writing the table. So a written
  table always has an entry for every node, and a delivery is reported
  unreachable only when a node is unknown to the tables.
- **Ties.** They are not broken by node identifier. The code keeps the first
  cheapest node in `graphNodes` order (strict `<` at line 69).
- **Costs and self-loops.** The code accepts any integer cost and self-loops.
  For every topology the model proves three things about each written entry:
  - its next hop is a neighbour of the node;
  - its cost is the weight of some walk that leaves through that hop;
  - its cost does not exceed the direct link.

  With negative costs that walk need not be the cheapest one. For example,
  take links 1 - 2 = 5, 2 - 3 = -10 and 1 - 3 = 1: node 1 records cost 1 to 3,
  but the walk 1 - 3 - 2 - 3 weighs -19. The entry is proved to be the shortest
  distance whenever no link cost is negative, so in particular whenever
  every cost is at least 1. Self-loops are allowed. A self-loop on the
  source only overwrites `cost[node]` at line 56, and the code never reads
  that entry again, because the source is visited from line 61 on. The
  search invariant therefore counts the source as 0. A self-loop on any
  other node is skipped at line 80, because that node has just been
  visited.

## Model

| member | source | states |
|---|---|---|
| Graphs.TouchSpec | src/DistanceVector.py:23 | reading a missing node of the defaultdict adds it with an empty row at the end of the node order and changes no link |
| Graphs.PutSpec | src/DistanceVector.py:149 | one assignment sets that direction's cost, appends a new neighbour to the end of that row's key order (an existing one keeps its place), adds the node if missing, and leaves every other link and every other row's key order unchanged |
| Graphs.LinkedSpec | src/DistanceVector.py:149-150 | add or update sets both directions to the cost, adds unknown endpoints after the known nodes, keeps the store symmetric and ordered, and leaves every other link as it was |
| Graphs.LinkedIdempotent | src/DistanceVector.py:149-150 | applying the same add/update twice gives the same store as once |
| Graphs.DropSpec | src/DistanceVector.py:142 | one `del` of a present entry removes exactly that direction, removes the neighbour from that row's key order keeping the rest in order, and keeps the node set, the node order and every other row's key order |
| Graphs.UnlinkedSpec | src/DistanceVector.py:141-147 | removing a present link deletes both directions, keeps every node (an isolated node stays) and the node order, keeps the store symmetric, and changes no other link |
| Graphs.RemoveTwiceFails | src/DistanceVector.py:142 | removing the same link a second time is not applicable (KeyError), not a no-op |
| Graphs.ApplyChangeSpec | src/DistanceVector.py:139-150 | every change, including a failing removal, keeps the store well formed and never drops a node |
| Graphs.ApplyChangeSimple | src/DistanceVector.py:139-150 | removals, and additions with distinct endpoints and cost at least 1, keep the store free of self-loops and zero or negative costs |
| Graphs.LoadAllSpec | src/DistanceVector.py:33-36 | loading a topology list keeps the store well formed, its node set is exactly the old nodes plus every endpoint of the list, and the old node order stays a prefix |
| Graphs.ApplyAllSpec | src/DistanceVector.py:140-150 | a sequence of changes keeps the store well formed and keeps every node |
| Graphs.AllApplicablePrefix | src/DistanceVector.py:140-142 | a change list that applies in full applies at every prefix, each change to the result of the ones before |
| RouteSearch.Seed | src/DistanceVector.py:49-57 | the source costs 0 (unless a self-loop overwrites it), each neighbour costs its link and is its own next hop, and the cost dict's key order is the source followed by its neighbours |
| RouteSearch.FirstMinSpec | src/DistanceVector.py:65-74 | the scan finds no node exactly when every unvisited node is infinite, otherwise an unvisited node of least finite cost |
| RouteSearch.FirstMinEarliest | src/DistanceVector.py:68-71 | ties go to the first node in `graphNodes` order |
| RouteSearch.SelectMin | src/DistanceVector.py:65-71 | the scan loop returns the node the scan specification picks and inserts infinity for each unvisited node it reads, appended in node order |
| RouteSearch.Relax | src/DistanceVector.py:79-85 | relaxation lowers, with strict `<`, exactly the unvisited neighbours reached more cheaply through the visited node, each inheriting that node's next hop; nothing else changes |
| RouteSearch.SelectedShortest | src/DistanceVector.py:65-76 | when no link cost is negative (every cost at least 1 included, self-loops allowed) the selected node's cost is its shortest distance |
| RouteSearch.Round | src/DistanceVector.py:63-85 | one round stops with every unvisited node infinite or visits exactly one more node, keeping the search invariant including the direct-link bound |
| RouteSearch.Search | src/DistanceVector.py:59-85 | the loop ends with the invariant and every unvisited node infinite, after at most number-of-nodes minus 1 iterations, counting the one whose scan finds nothing and breaks (lines 73-74) |
| RouteSearch.RouteFrom | src/DistanceVector.py:49-85 | for every other node the cost is finite iff it is reachable, the next hop is a neighbour of the source that starts a walk of that cost (shortest when no link cost is negative, self-loops allowed), no cost exceeds the direct link, the key order is as inserted, and the selection loop runs at most number-of-nodes minus 1 iterations, the breaking one included |
| DistanceVector.LinesSpec | src/DistanceVector.py:87-90 | each table line shows the row entry of a key other than the node itself, and every such key has a line |
| DistanceVector.SearchedReach | src/DistanceVector.py:87-89 | the next-hop read at line 89 finds an entry for every key exactly when the node reaches every node |
| DistanceVector.SearchedRow | src/DistanceVector.py:87-92 | a row written from a search is correct: every node present, self entry (node, 0), each other entry a neighbour starting a walk of its cost, no entry dearer than the direct link, shortest when no link cost is negative (self-loops allowed) |
| DistanceVector.FillRow | src/DistanceVector.py:87-93 | the write succeeds iff every key has a next hop; entries and lines follow the cost dict's key order with the self entry and line last; on a KeyError at line 89 there is a first key without a next hop; every key before it has its entry (next hop, cost) written and its line emitted, and the self line is not emitted |
| DistanceVector.ComputeTable | src/DistanceVector.py:44-93 | one node's table is built iff that node reaches every node, and it is then correct, with its lines in key order |
| DistanceVector.NextTable | src/DistanceVector.py:44-93 | one round of the node loop extends the built tables and the log by that node, or stops on a node that cannot reach every node |
| DistanceVector.ComputeTables | src/DistanceVector.py:42-93 | the tables are built iff the topology is connected; every table is then correct and the log is every node's block in `graphNodes` order; on failure the earlier nodes are complete |
| DistanceVector.DeliveriesSpec | src/DistanceVector.py:112-119 | one delivery record per message, in list order, each with that message's source, destination and payload |
| DistanceVector.DeliverCorrect | src/DistanceVector.py:113-119 | with correct tables a message between known nodes reports hops [source, next hop] over a real walk of the reported cost (shortest when no link cost is negative, self-loops allowed); any other message is unreachable at infinite cost |
| DistanceVector.RunWorksStep | src/DistanceVector.py:179-182 | the run over i + 1 changes works iff the run over i works and change i applies and leaves a connected topology |
| DistanceVector.RunWorksPrefix | src/DistanceVector.py:179-182 | a run that works works on every prefix of its changes, so one failing change fails every longer run |
| DistanceVector.Router.constructor | src/DistanceVector.py:22-25 | empty store, no tables, no messages, empty output |
| DistanceVector.Router.Missing | src/DistanceVector.py:23 | a defaultdict read of the store, all else unchanged |
| DistanceVector.Router.Set | src/DistanceVector.py:149 | one assignment to the store, all else unchanged |
| DistanceVector.Router.AddLink | src/DistanceVector.py:35-36 | two-way insertion, keeping the store well formed |
| DistanceVector.Router.Remove | src/DistanceVector.py:141-147 | succeeds iff the link is present and then removes both directions; otherwise raises a KeyError after the defaultdict read |
| DistanceVector.Router.LoadTopology | src/DistanceVector.py:33-36 | the store after inserting every topology entry in file order |
| DistanceVector.Router.ApplyTopologyChange | src/DistanceVector.py:139-150 | succeeds iff every change applies in order; otherwise names the first failing change and the store it left |
| DistanceVector.Router.BuildTables | src/DistanceVector.py:42-93 | succeeds iff the topology is connected; then all tables are correct and the output gains every node's block |
| DistanceVector.Router.AddMessages | src/DistanceVector.py:103 | the messages are appended in order |
| DistanceVector.Router.SendMessages | src/DistanceVector.py:109-119 | the output gains one delivery record per stored message in order; nothing else changes |
| DistanceVector.Router.Step | src/DistanceVector.py:180-182 | one change succeeds iff it applies and leaves a connected topology; then the tables are correct and the output gains the tables and then the deliveries |
| DistanceVector.Router.Run | src/DistanceVector.py:172-182 | succeeds iff the loaded topology is connected and each change applies and leaves it connected; then the final store and tables, the correct tables of every stage, and the output are all determined |
| Scenarios.LoadTriangle | src/DistanceVector.py:33-36 | loading links 1-2, 2-3 and 1-3 yields the expected store with its dict key orders |
| Scenarios.Remove13 | src/DistanceVector.py:141-147 | removing 1 - 3 from the triangle yields the two-link store |
| Scenarios.Node1Row | src/DistanceVector.py:42-93 | any correct table of node 1 in the triangle, or after cutting 1 - 3, routes 2 and 3 through 2 at costs 5 and 10 |
| Scenarios.LoopedRow | src/DistanceVector.py:49-85 | with a self-loop 1 - 1 of cost 7 added to the triangle, any correct table of node 1 still records the shortest cost 10 to 3 |
| Scenarios.DetourDeliveries | src/DistanceVector.py:113-119 | with that table 1 → 3 reports cost 10 and hops [1, 2]; 1 → 5 is unreachable |
| Scenarios.RemoveDetourIntact | src/DistanceVector.py:172-182 | the run that cuts 1 - 3 succeeds and the final table of node 1 is the detour through 2 |
| Scenarios.TriangleTables | src/DistanceVector.py:42-93 | before any change, correct tables of the triangle send node 1's traffic for 3 through 2 at cost 10, not over the direct link of cost 20 |
| Scenarios.IsolateBreaks | src/DistanceVector.py:89 | after 1 - 3 is cut, the removal of 1 - 2 applies but leaves node 1 cut off, so the rebuild (the KeyError at line 89) is the failing step and the run does not work |
| Scenarios.AbsentBreaks | src/DistanceVector.py:142 | after 1 - 3 is cut, the removal of 1 - 4 is not applicable (the KeyError at line 142), so the run does not work |
| Scenarios.IsolateFails | src/DistanceVector.py:172-182 | the router's run that cuts 1 - 3 and then 1 - 2 fails (IsolateBreaks says why) |
| Scenarios.RemoveAbsentFails | src/DistanceVector.py:172-182 | the router's run that cuts 1 - 3 and then the absent 1 - 4 fails (AbsentBreaks says why) |

## Left out

- File reading and parsing (`read_topology` lines 32-34, `read_message` lines 100-102 with `split` and `strip`, `read_topology_changes` lines 127-133): the model takes the parsed lists as parameters.
- The output file: it is modelled as a sequence of records. The text formatting at lines 90, 93, 117 and 119 is not modelled.
- The file-existence checks at lines 161-169, `print`, and the command-line entry point at lines 189-201: these are I/O.
- `float('inf')` is modelled as the `Cost` datatype; no floating point is modelled.
- Python's unbounded integers are modelled as Dafny `int`, so no overflow exists on either side.
- `src/LinkState.py` and the `dijkstar` library it calls are not part of this model.
- An exception ends the whole process in the source. The model reports it as `ok == false` and says nothing about the store or tables after it, beyond what the failing method states.
- RouteSearch.RouteFrom: does not pin down which of several equal-cost next hops is chosen. It states only that the chosen hop starts a walk of the recorded cost. The tie rule itself is stated by FirstMinEarliest for one scan.
- DistanceVector.Router.Run: on success it determines the output only through each stage's tables, and states of those tables only that they are correct (RowCorrect), not which walk each entry takes.
- DistanceVector.ComputeTable: on failure it does not state the partial lines of the failing node; FillRow states them.
- DistanceVector.FillRow: requires that every key with a next hop has a finite cost. The search always guarantees this, so the source never checks it.
