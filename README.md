# Distance-vector routing simulation, modelled in Dafny

DistanceVectorSimulation is a small Python program. It simulates the distance-vector
routing protocol on a graph of nodes joined by weighted edges.

- **Engine.** Every node owns an engine (`DVR` in DVR_module.py) with these fields:
  - a distance table (`node_table`);
  - a scratch copy (`temp_table`);
  - a table of the next hop each distance was learned from (`learn_table`).

  The engine computes one Bellman-Ford round from its neighbours' advertised rows. An
  offer that the neighbour learned from the node itself costs 999999 plus the edge cost
  (`999999 + cost_between`); the neighbour's advertised distance is dropped. The engine
  then commits its new own row.
- **Coordinator.** `NetworkSimulator` in simulation.py sets up the registry of nodes and
  edges and initializes every engine (`generate_graph`). Each `step` runs every node's
  round in `node_list` order and then commits every node. `run_simulation` repeats steps
  until one reports convergence or 100 steps have been counted.
- **Topology generator.** configuration_reader.py builds the edge list of a ring, of a
  complete graph, or of the `[edge]` items of a configuration file.

The model has seven modules:

- `Routing` (routing.dfy) gives the meaning of one engine on values:
  - `compute_min`: Python's `min`, then `list.index`, with the bare `except`;
  - the candidates of each neighbour;
  - a whole round, as `Calc`, and the flag `is_DV_changed`;
  - the commit, as `Commit`;
  - initialization, as `Init`.
- `Rounds` (rounds.dfy) gives the meaning of `step` and `run_simulation` on lists of
  engine states:
  - the compute phase is a left-to-right fold over `node_list`, in which each node sees
    the fresh `learn_table` of the nodes before it;
  - then every node commits;
  - then the loop runs, bounded by 100.
- `Simulation` (simulation.dfy) holds the classes `Edge`, `Node`, `Dvr`, `GraphWidget`
  and `NetworkSimulator`. Their fields are updated in place. The methods of `Dvr` and
  `NetworkSimulator.GenerateGraph`, `Step` and `RunSimulation` are proved to compute
  exactly the value-level functions of `Routing` and `Rounds`. The other methods (the
  constructors, `Edge.SetCost`, `Node.AddEdge` and `RemoveEdge`, the methods of
  `GraphWidget`, and `NetworkSimulator.Reset`, `AddNode` and `SetCount`) are specified
  field by field, with the list operations of `Seqs`.
- `ConfigReader` (configuration_reader.dfy) holds the three edge-list generators of
  `read_file` as loops, proved against value-level shapes, and the outcome of
  `read_file` both as its handlers intend and as written.
- `Decimal`, `Seqs` and `Wrappers` (decimal.dfy, seqs.dfy, wrappers.dfy) hold:
  - `str()` of a natural number;
  - `list.index` and `list.remove`;
  - `Option`, which stands for Python's `None`, and `Result`.

Where the code departs from the textbook distance-vector algorithm, the model follows the
code:

- **Penalty.** A penalized offer costs `999999 + cost_between`. The neighbour's
  advertised distance is not added (DVR_module.py:82-84).
- **Nodes without neighbours.** Every neighbour adds the candidate `(0, self)` for the
  node's own column, so a node without neighbours gets no candidate at all. Its distance
  to itself becomes `None`, and its first round reports a change
  (`Routing.IsolatedNodeChanges`, `Rounds.SelfDistanceAfterStep`). It does not converge
  at once with distance 0.
- **No error for an empty topology.** An empty `node_list` is handled like any other; no
  error is raised.
- **`is_converged` is never read.** The field `is_converged` of `DVR` is never read, so
  it has no part in the model.
- **The convergence check compares the whole table.** It looks at the refreshed
  neighbour rows as well as the own row (`Routing.ChangedScope`).

## Model

| member | source | states |
|---|---|---|
| Decimal.NatToString | configuration_reader.py:34-35 | `str(n)`: at least one character, every character a digit, no leading zero, a single digit exactly for n < 10 |
| Decimal.ParseNatToString | configuration_reader.py:34-35 | reading back the digits that `str(n)` writes gives n |
| Decimal.NatToStringInjective | simulation.py:349 | two numbers have the same name exactly when they are equal |
| Seqs.IndexOf | simulation.py:207 | `list.index(x)`: a position holding x with no x before it |
| Seqs.RemoveFirst | simulation.py:192-193 | `list.remove(x)`: the list without its first occurrence of x |
| Seqs.RemoveFirstMultiset | simulation.py:192-193 | `list.remove(x)` takes exactly one x out of the elements and shortens the list by one |
| Seqs.RemoveFirstMatchesAt | simulation.py:192-193 | removing x from a list with the same elements as b, where b holds x at position k, leaves the elements of b without position k |
| Routing.Unknown | DVR_module.py:89 | `[None for i in range(n)]`: n cells, all `None` |
| Routing.FirstMinPos | DVR_module.py:109-110 | the position `a_list.index(min(a_list))`: no later value is smaller and every earlier value is larger |
| Routing.FirstMinUnique | DVR_module.py:109-110 | at most one position is the first minimum |
| Routing.MinOf | DVR_module.py:109 | Python's `min`: an element of the list that is no larger than any element |
| Routing.ComputeMin | DVR_module.py:101-114 | `compute_min`: `(None, None)` for an empty list or a missing index; otherwise the first smallest cost and the index paired with it |
| Routing.ComputeMinSnoc | DVR_module.py:101-114 | an appended candidate wins exactly when it is strictly cheaper than the current minimum, so ties keep the earlier candidate |
| Routing.NeighborOffer | DVR_module.py:76-87 | a neighbour offers nothing exactly when the destination is another node it has no distance to; its own column offers via the destination itself; otherwise the offer goes via the neighbour and costs the advertised distance plus the edge cost, or 999999 plus the edge cost when the neighbour learned its route from this node |
| Routing.Offer | DVR_module.py:67-87 | a node of `node_list` offers nothing exactly when it is not a neighbour or has no distance to the (other) destination; an offer for another destination goes via that node |
| Routing.Offers | DVR_module.py:67-87 | one offer per node of `node_list`, in list order |
| Routing.BestOf | DVR_module.py:95-98 | no best offer exactly when no offer was made; otherwise the position of the first cheapest offer |
| Routing.FirstBestUnique | DVR_module.py:95-98 | at most one offer is the first cheapest |
| Routing.GatherEmpty | DVR_module.py:61-92 | the candidate lists are empty exactly when no node made an offer |
| Routing.GatherPrefix | DVR_module.py:67-87 | visiting one more node appends its candidate, if it offers one |
| Routing.GatherStep | DVR_module.py:80-87 | the cost and index lists after one more node are those before it, followed by that node's offer |
| Routing.ChooseSnoc | DVR_module.py:95-98 | one more offer changes the chosen route only when it is strictly cheaper |
| Routing.ChooseBest | DVR_module.py:95-98 | the chosen cost and next hop are those of the first cheapest offer, or `(None, None)` when there is no offer |
| Routing.ChooseIsFirstBest | DVR_module.py:95-98 | the choice is `(None, None)` exactly when no offer was made, and otherwise the cost and next hop of the first cheapest offer |
| Routing.Choose | DVR_module.py:95-98 | a distance is chosen exactly when a next hop is, and neither exactly when no offer was made |
| Routing.Route | DVR_module.py:67-98 | the new distance and next hop for a destination are chosen together, and are both `None` exactly when no node of `node_list` makes an offer |
| Routing.RouteFirstBest | DVR_module.py:67-98 | for another destination: there is no route exactly when no neighbour advertises a distance to it; a distance is chosen exactly when a next hop is; otherwise the next hop is a neighbour that advertises one, its offer is no dearer than any neighbour's, and it is strictly cheaper than every neighbour's before it in `node_list` |
| Routing.SelfRoute | DVR_module.py:77-79 | the node's own column is distance 0 via itself when it has a neighbour in `node_list`, and `(None, None)` when it has none |
| Routing.Refreshed | DVR_module.py:67-92 | the refreshed table is n rows of n cells |
| Routing.RefreshNext | DVR_module.py:73 | refreshing row m extends the refreshed prefix by one row |
| Routing.StartUpTo | DVR_module.py:61-65 | before the loop no row is refreshed and every candidate list is empty |
| Routing.CollectNext | DVR_module.py:76-87 | appending node m's offers extends the collected candidate lists by that node's offer per destination |
| Routing.CollectedAll | DVR_module.py:95-97 | after the loop, `compute_min` of every destination's lists is the route chosen from all offers |
| Routing.ChooseNext | DVR_module.py:95-98 | choosing the route of destination i extends the chosen prefix of the own row and of `learn_table` by one |
| Routing.ChosenAll | DVR_module.py:95-98 | after the last loop: `temp_table` is the old table with the new own row, and `learn_table` holds the chosen next hops |
| Routing.NewRow | DVR_module.py:95-97 | the new own row has one cell per node |
| Routing.NewLearn | DVR_module.py:98 | the new `learn_table` keeps its length |
| Routing.DiffersIff | DVR_module.py:123-131 | on tables of the same n by n shape, some cell differs from its counterpart exactly when the tables differ |
| Routing.CalcIs | DVR_module.py:53-99 | a round that refreshes the table, fills `temp_table` and `learn_table` and takes the flag is the round `Calc` |
| Routing.Calc | DVR_module.py:53-99 | a round reports a change exactly when its refreshed table differs from its new `temp_table`; it keeps the own row of `node_table`, the table's size, the node index and the initialized flag |
| Routing.Commit | DVR_module.py:117-121 | `update_distance_vector`: the own row of `temp_table` becomes the own row of `node_table`, every other row and every other field stay as they were |
| Routing.CalcShape | DVR_module.py:53-99 | a round keeps the tables readable (n by n), keeps the length of `learn_table`, leaves the own row of `node_table` until the commit, and keeps the index and the initialized flag |
| Routing.ChangedScope | DVR_module.py:123-131 | the changed flag is set exactly when a refreshed row of another node differs from the cached one, or the new own row differs from the old |
| Routing.RowChangeScope | DVR_module.py:123-131 | two tables agreeing on row `self` differ after that row of the second is replaced exactly when another row differs or the replacement does |
| Routing.ChangedIffCommittedDiffers | DVR_module.py:117-131 | the committed table is the refreshed table with the new own row, and the round reports a change exactly when that table differs from the one before the round |
| Routing.IsolatedNodeChanges | DVR_module.py:76-99 | a node without neighbours gets distance `None` to itself, and its round after initialization reports a change |
| Routing.NewRowNonNegative | DVR_module.py:76-98 | with non-negative edge costs and non-negative advertised distances, every chosen distance is non-negative |
| Routing.MarkAll | DVR_module.py:48-49 | marking keeps the length of `learn_table` |
| Routing.MarkAllAt | DVR_module.py:48-49 | after the marks, an entry names itself when its index was in the list, and is unchanged otherwise |
| Routing.Zeros | DVR_module.py:40 | n entries, each 0 |
| Routing.InitTable | DVR_module.py:36-45 | the initial table is n rows of n cells |
| Routing.Init | DVR_module.py:32-51 | initialization marks the engine initialized, stores the node index and the neighbour indices, leaves `temp_table` alone and extends `learn_table` by one entry per node |
| Routing.InitFacts | DVR_module.py:32-51 | after `initialize_node_table`: initialized, readable, index taken from the node; the own row holds the direct costs and every other row is all `None`; `learn_table` grew by n; the node and its neighbours name themselves, older entries are kept and the new ones are 0 |
| Rounds.ReadyPrepared | DVR_module.py:53-99 | in a ready list, every node can run its round |
| Rounds.CalcKeepsReady | simulation.py:653-655 | one node's round keeps the whole list ready for the next node |
| Rounds.InitAllReady | simulation.py:639-640 | once every node has been initialized over its links, every engine is initialized and ready for a step |
| Rounds.ComputeFrom | simulation.py:652-655 | the compute phase keeps the list ready, leaves the nodes already done and every own row as they were, and keeps the initialized flags and the `learn_table` lengths |
| Rounds.SeenReady | simulation.py:653-655 | what a node sees during the phase (updated states before it, starting states from it on) is a ready list |
| Rounds.ComputeFromUnfold | simulation.py:653-655 | the phase from node k is node k's round followed by the phase from k + 1, and every later node sees the same states either way |
| Rounds.ComputeStep | simulation.py:653-655 | the phase from k + 1, after node k's round and flag, ends where the phase from k does |
| Rounds.ComputeFromSees | simulation.py:653-655 | each node's new state is its own round over the states the earlier nodes have already updated, together with its own and the later nodes' states at the start |
| Rounds.ComputeFromChanged | simulation.py:652-655 | the phase reports a change exactly when some node's round does |
| Rounds.ChangedStep | simulation.py:653-655 | node k's flag and the changes after it account for all changes reported from k on |
| Rounds.ChangedLater | simulation.py:653-655 | past node k, the nodes report the same changes whether the phase is taken from k or from k + 1 |
| Rounds.CommitAll | simulation.py:657-658 | every node's state is its commit |
| Rounds.ComputedCommittable | simulation.py:652-658 | after the compute phase every engine can commit |
| Rounds.StepReady | simulation.py:642-660 | a step on initialized, ready nodes gives a flag, and keeps every node initialized and ready with the same `learn_table` lengths |
| Rounds.Step | simulation.py:642-660 | a step gives a flag exactly when every node is initialized; without one it changes nothing; it keeps the number of engines |
| Rounds.StepRound | simulation.py:652-658 | after a step, node k holds the commit of its round over what it saw, and in particular over every node's own row as committed at the start |
| Rounds.ConvergedIffTablesStable | simulation.py:651-660 | a step reports convergence exactly when it leaves every node's table as it was |
| Rounds.SelfDistanceAfterStep | simulation.py:651-658 | after a step a node's distance to itself is 0 when it has a neighbour in `node_list`, and `None` otherwise |
| Rounds.StepKeepsNonNegative | simulation.py:651-658 | with non-negative edge costs, a step keeps every advertised distance non-negative |
| Rounds.RunLoop | simulation.py:670-672 | the loop keeps every node initialized and ready |
| Rounds.RunLoopUnfold | simulation.py:670-672 | below the limit and not converged, the loop is one step followed by the loop from the next count |
| Rounds.RunLoopBounds | simulation.py:670-672 | the count never decreases; started below 100 and unconverged, it ends above the start and at most at 100; it ends below 100 only on a converged step; at or past 100, or already converged, nothing happens |
| Rounds.Run | simulation.py:662-675 | `run_simulation` changes nothing unless every node is initialized; the count never decreases, and from below 100 it grows and ends at most at 100; the number of engines is kept |
| Simulation.Edge.constructor | simulation.py:19-39 | cost 1 and active; the edge registers itself with both endpoints' lists (twice for a loop) and is named after them; the endpoints' names and indices are kept |
| Simulation.Edge.SetCost | simulation.py:41-42 | only the cost changes |
| Simulation.Node.constructor | simulation.py:151-163 | name `str(n)`, no index, no edges, an uninitialized engine of its own |
| Simulation.Node.GetNodeAttached | simulation.py:171-179 | for an edge at this node, the node and the result are exactly the two endpoints; for any other edge, its source |
| Simulation.Node.FarEnds | simulation.py:171-179 | one far end per edge, in order |
| Simulation.Node.FarEndsDrop | simulation.py:192-193 | dropping an edge drops its far end at the same position |
| Simulation.Node.AlignedBalanced | simulation.py:184-188 | lists in step have the same far ends as a multiset |
| Simulation.Node.AddEdge | simulation.py:184-188 | the edge and its far end are appended; lists that were in step stay in step, and so do lists with the same far ends |
| Simulation.Node.RemoveEdge | simulation.py:190-193 | `remove_edge` as written: the first occurrence of the edge and the first occurrence of its far end are removed; both lists shrink by one and keep the same far ends as a multiset |
| Simulation.Node.RemoveFirstBalanced | simulation.py:190-193 | removing an edge and its far end from lists with the same far ends leaves lists with the same far ends |
| Simulation.Node.RemoveEdgeAligned | simulation.py:190-193 | `remove_edge` as intended: the far end at the removed edge's position is dropped, so the lists stay in step |
| Simulation.Node.CostBetween | simulation.py:198-210 | `get_edge_cost_between` is 0 for the node itself and `None` for a node that is not a neighbour; any other cost is that of the edge at the first position of the node in `neighbor_nodes` |
| Simulation.Node.CostOfFirstEdge | simulation.py:198-210 | with the lists in step, the cost to another node is that of the first of its edges leading there, and `None` exactly when no edge leads there |
| Simulation.Node.CostIgnoresActive | simulation.py:198-210 | the edge cost query does not depend on `is_active` |
| Simulation.RemoveEdgeMisattributes | simulation.py:190-210 | the as-written `remove_edge` on A with edges A-B (cost 5), A-C (cost 1) and a second A-B leaves the lists out of step, and the cost to C is then 5, although the only edge to C costs 1 |
| Simulation.ParallelEdges | simulation.py:19-42 | a node A with edges A-B (cost 5), A-C (cost 1) and a second A-B, and the lists `Edge` builds for A |
| Simulation.IndicesOf | DVR_module.py:27-30 | the node indices of a list of nodes, in order |
| Simulation.LinksOf | simulation.py:198-210 | what a node's own lists say about every node of `node_list`, one entry per node |
| Simulation.Topology | simulation.py:198-210 | the links of every node of `node_list`, in order |
| Simulation.States | DVR_module.py:8-20 | the engine state of every node of `node_list`, in order |
| Simulation.Dvr.constructor | DVR_module.py:8-20 | no index, empty lists and tables, not initialized |
| Simulation.Dvr.UpdateNeighborIndex | DVR_module.py:22-30 | `neigbor_index` becomes the indices of the node's neighbours, in their order; nothing else changes |
| Simulation.Dvr.InitializeNodeTable | DVR_module.py:32-51 | the new state is `Init` of the old one over the node's index and links |
| Simulation.Dvr.BuildTables | DVR_module.py:35-45 | the nested loops build the initial table and append n zeros to `learn_table`; nothing else changes |
| Simulation.Dvr.FillRow | DVR_module.py:42-45 | the inner loop builds row i of the initial table; nothing else changes |
| Simulation.Dvr.MarkNeighbors | DVR_module.py:48-49 | each neighbour's entry of `learn_table` names the neighbour; nothing else changes |
| Simulation.Dvr.CalculateDistanceVector | DVR_module.py:53-99 | before initialization, `None` and no change; otherwise the new state and the flag are the round `Calc` over the node's links and the engine states on entry |
| Simulation.Dvr.Round | DVR_module.py:60-99 | state and flag after the loops are the round `Calc` |
| Simulation.Dvr.RefreshAndCollect | DVR_module.py:67-92 | after the loop over `node_list`, the table is refreshed and the candidate lists hold every node's offers |
| Simulation.Dvr.Visit | DVR_module.py:68-92 | one pass for node m: row m is refreshed and node m's offers are appended; the heap the loop reads is unchanged |
| Simulation.Dvr.ChooseRoutes | DVR_module.py:95-98 | the own row of `temp_table` becomes the new row and `learn_table` the chosen next hops; nothing else changes |
| Simulation.Dvr.IsDvChanged | DVR_module.py:123-131 | whether some cell of `node_table` differs from the same cell of `temp_table` |
| Simulation.Dvr.UpdateDistanceVector | DVR_module.py:117-121 | the new state is the commit of the old |
| Simulation.AppendOffers | DVR_module.py:76-87 | each destination's lists get the neighbour's offer appended, if it makes one: `(0, self)` for the own column, none for an unknown distance, `999999 + cost` when the neighbour learned the route from us, else distance plus cost |
| Simulation.FindByName | simulation.py:368-377 | `None` exactly when no node has the name; a result is a listed node with that name |
| Simulation.FindByNameFirst | simulation.py:368-377 | the node found is the first with that name |
| Simulation.GraphWidget.constructor | simulation.py:286-291 | counters zero, lists empty, the registry valid |
| Simulation.GraphWidget.AddNodeItem | simulation.py:346-350 | the node gets the next index and the name of the new count and is appended; nothing else changes; a valid registry stays valid when the node and its engine are new to it |
| Simulation.GraphWidget.AddEdgeItem | simulation.py:351-353 | the edge is counted and appended; nothing else changes; validity is kept |
| Simulation.GraphWidget.Reset | simulation.py:356-366 | counters zero, all three lists empty |
| Simulation.GraphWidget.GetNode | simulation.py:368-377 | `None` exactly when no node has the name; a result is a listed node with that name |
| Simulation.GraphWidget.GetNodeByNumber | simulation.py:368-377 | in a valid registry the name `str(k + 1)` finds node k |
| Simulation.RegisteredCanInit | DVR_module.py:32-51 | when every neighbour is registered, every node can be initialized |
| Simulation.WiredLinksOk | simulation.py:198-210 | with as many edges as neighbours, every neighbour has an edge cost |
| Simulation.EveryInitialized | simulation.py:646-649 | whether every engine of `node_list` is initialized |
| Simulation.CostMatrix | simulation.py:633-637 | row i holds `get_edge_cost_between` from node i to every node of `node_list` |
| Simulation.InitializeAll | simulation.py:639-640 | every engine holds the initialization of its earlier state over its node's links |
| Simulation.StoreMatrix | simulation.py:638 | `network_graph` is set; no node, link or engine changes |
| Simulation.InitializedReady | simulation.py:629-640 | after initialization over the nodes' links, a registered list with as many edges as neighbours is all initialized and ready for a step |
| Simulation.ComputeOne | simulation.py:653-655 | one node's round; the flag is cleared on a change, and the phase still to come ends where the phase from this node would |
| Simulation.ComputeAll | simulation.py:652-655 | the engine states and the negated flag are those of the compute phase over `node_list` |
| Simulation.CommitEvery | simulation.py:657-658 | every engine holds its commit |
| Simulation.StepNodes | simulation.py:642-660 | the flag and the new states are `Step` of the links and the old states |
| Simulation.NetworkSimulator.constructor | simulation.py:430-442 | counter zero, an empty and valid registry |
| Simulation.NetworkSimulator.Reset | simulation.py:560-563 | counter zero, registry empty and valid |
| Simulation.NetworkSimulator.AddNode | simulation.py:591-592 | a fresh node, without edges and not initialized, is registered under the next index and name; the older nodes stay; validity is kept |
| Simulation.NetworkSimulator.GenerateGraph | simulation.py:629-640 | `network_graph` holds the cost matrix; every engine holds its initialization over its links; the registry is unchanged |
| Simulation.NetworkSimulator.Step | simulation.py:642-660 | the flag and the new states are `Step` of the links and the old states, and the links and registration are kept |
| Simulation.NetworkSimulator.StepFlag | simulation.py:670-672 | one pass of the loop: the next count's loop ends where this count's would; every node stays initialized and ready |
| Simulation.NetworkSimulator.RunSteps | simulation.py:670-672 | the count and the states are those of the loop `RunLoop` from the given count |
| Simulation.NetworkSimulator.SetCount | simulation.py:673 | the counter is set; no engine changes |
| Simulation.NetworkSimulator.RunSimulation | simulation.py:662-675 | the counter and the states are `Run` of the old counter, links and states |
| ConfigReader.Ring | configuration_reader.py:31-37 | the "Circle" list has one edge per node (none for a count of zero or less), each of value 1, edge i starting at `str(i+1)` |
| ConfigReader.RingNext | configuration_reader.py:35 | the next ring position is below n, and is 0 exactly for the last position |
| ConfigReader.CircleEdgeList | configuration_reader.py:31-37 | the "Circle" loop yields the ring |
| ConfigReader.RingAt | configuration_reader.py:32-37 | ring edge i joins node i + 1 to its successor, with value 1 |
| ConfigReader.RingShape | configuration_reader.py:31-37 | the ring has n edges (none for n < 0), all of value 1; edge i joins `str(i+1)` to `str(i+2)`, and the last one joins to `str(1)`; no two edges share a start or an end |
| ConfigReader.RingLabelsInRange | configuration_reader.py:34-35 | both ends of every ring edge name a node between 1 and n |
| ConfigReader.PairRow | configuration_reader.py:42 | row i holds the pairs (i, j) for i < j < n, in increasing j |
| ConfigReader.PairEdges | configuration_reader.py:45 | one edge per pair, in order |
| ConfigReader.PairEdgesAppend | configuration_reader.py:45 | the edges of one more pair are those before it followed by that pair's edge |
| ConfigReader.PairEdgesConcat | configuration_reader.py:39-45 | the edges of two runs of pairs are the edges of each run, one after the other |
| ConfigReader.Complete | configuration_reader.py:38-45 | one edge per visited pair |
| ConfigReader.FullEdgeList | configuration_reader.py:38-45 | the "Full" loops yield the complete graph |
| ConfigReader.FullRow | configuration_reader.py:42-45 | the inner loop of row i appends that row's edges |
| ConfigReader.FullEdgeAt | configuration_reader.py:43-45 | the edge appended for j is that of pair j of row i |
| ConfigReader.RowStep | configuration_reader.py:45 | one pass of the inner loop appends the edge of the next pair of the row |
| ConfigReader.PairsBeforeMembers | configuration_reader.py:39-42 | the first i rows hold exactly the pairs a < b < n with a < i |
| ConfigReader.PairsBeforeMember | configuration_reader.py:39-42 | one pair is in the first i rows exactly when a < i and a < b < n |
| ConfigReader.RowMembers | configuration_reader.py:42 | row i holds exactly the pairs (i, b) with i < b < n |
| ConfigReader.ConcatOrdered | configuration_reader.py:39-42 | two increasing runs, the first entirely below the second, make one increasing run |
| ConfigReader.PairsBeforeOrdered | configuration_reader.py:39-42 | the loops visit the pairs in strictly increasing lexicographic order |
| ConfigReader.PairsBeforeCount | configuration_reader.py:39-42 | the first i rows hold i*n - i*(i+1)/2 pairs |
| ConfigReader.CompleteShape | configuration_reader.py:38-45 | "Full" yields n(n-1)/2 edges of value 1, one per pair i < j < n, named `str(i+1)` and `str(j+1)`, in strictly increasing order, so each pair once |
| ConfigReader.Split | configuration_reader.py:51-52 | `split` yields at least one piece |
| ConfigReader.SplitJoin | configuration_reader.py:51-52 | joining the pieces gives the string back; no piece holds the separator; there are two or more pieces exactly when the separator occurs |
| ConfigReader.NamedEdge | configuration_reader.py:49-54 | an item fails only with the error of its own key, and an accepted item keeps its value as text |
| ConfigReader.NamedEdgeMeaning | configuration_reader.py:50-54 | a key is accepted exactly when it holds an underscore; the first field is the text before the first underscore, the second the text up to the next underscore or the end; the value is kept as text |
| ConfigReader.NamedEdgesFailureSticks | configuration_reader.py:49-54 | once an item has raised, later items do not matter |
| ConfigReader.NamedEdgeList | configuration_reader.py:46-54 | the "None" loop: when every key holds an underscore, one edge per item in item order; otherwise the error of the first key without one |
| ConfigReader.ReadEdges | configuration_reader.py:20-60 | the outcome of `read_file` as its handlers intend fails exactly for the "None" option with a missing `[edge]` section or a key without an underscore; otherwise it keeps the node count |
| ConfigReader.HandlersRaise | configuration_reader.py:1-60 | `read_file` as written differs from its intended outcome exactly for an absent option, and for the "None" option with a missing `[edge]` section or a key without an underscore; there it raises AttributeError from the handler; a file without `[node] option` raises where `(num_node, [])` is intended |
| ConfigReader.ReadEdgesAsWritten | configuration_reader.py:1-60 | `read_file` as written fails exactly for an absent option and, for the "None" option, for a missing `[edge]` section or a key without an underscore, and every such failure is the AttributeError of a handler; otherwise it keeps the node count |
| ConfigReader.NamedEdges | configuration_reader.py:46-54 | the "None" loop over the items yields one edge per item, each keeping its item's value, or fails only with the error of a key without an underscore taken from one of the items |
| ConfigReader.ReadFile | configuration_reader.py:20-60 | the intended outcome: "Circle" gives the ring, "Full" the complete graph, "None" the `[edge]` items or an error (no section: no list; a key without underscore: the error); an absent or any other option gives an empty list |

## Left out

- The Qt user interface is not modelled. This covers painting, the scene, mouse and
  keyboard handling, node positions, the table display and the demonstration graph that
  the `GraphWidget` constructor adds. `add_item` also needs a scene; the model assumes
  one is present.
- The console output (`print`) is not modelled. It has no effect on the state.
- `delete_selected_node`, `delete_selected_edge`, `NetworkSimulator.add_edge`,
  `config_file`, `read_input_file` and the file dialog are not part of this model. They
  are editing and I/O surfaces around the core.
- Reading the configuration file is not modelled: the `ConfigParser` calls and the
  `int()` conversion of the node count. `ConfigReader.ReadFile` takes their results as
  inputs.
- ConfigReader.ReadFile: models the handlers as evidently intended, as if they named
  `configparser.Error`. As written, each `except ConfigParser.Error` raises
  AttributeError once an exception reaches it; that outcome is
  `ConfigReader.ReadEdgesAsWritten`, and the Findings table relates the two. A key
  without an underscore is a `Failure` here; as intended it is an uncaught `IndexError`.
  The failure of `[node] number` (configuration_reader.py:12-18) is not modelled,
  because the node count is an input.
- Simulation.Node.RemoveEdge: requires the edge and its far end to be in the lists. This
  rules out the `ValueError` that `list.remove` raises (simulation.py:192-193), and that
  path is not modelled. The callers (simulation.py:593-614) pass an edge of the selected
  node or the selected edge itself; they belong to the editing surface left out above.
- `DVR.is_converged` is never read or written after construction, so it is not modelled.
- Python's identity test `i is self.node_index` (DVR_module.py:77) is modelled as
  equality of integers. CPython gives that for small integers.
- The model copies rows, where the source shares them between tables. In the source the
  only in-place writes go to `temp_table`, which is a fresh deep copy, so the sharing
  cannot be observed there.
- `DVR` keeps references to its node and to the shared `node_list`. In the model the
  engine is a constant field of the node, and its methods receive the node and the list
  as parameters (`owner`, `nodes`).
- The engine methods require well-formed input. Without it the source raises
  `IndexError` or `TypeError`, and the model does not model those failures. The
  requirements are:
  - every node sits at its own index in `node_list`;
  - engines are distinct;
  - every neighbour is registered (`Registered`, `Closed`);
  - every neighbour has an edge cost (`Rounds.LinksOk`, from `Wired`);
  - the node and every neighbour have an index inside `learn_table` (`CanInit`).
- A negative index is not modelled: Python's negative indexing would silently accept a
  node whose index is negative or `None`. The model requires non-negative indices
  instead.
- Simulation.GraphWidget.AddNodeItem: keeps `Valid()` only when the node and its engine
  are new to the registry. The source does not check that.
- Simulation.NetworkSimulator.GenerateGraph: does not itself state that the nodes are
  then ready for a step. `Simulation.InitializedReady` states it from the postcondition.
- Simulation.NetworkSimulator.RunSimulation: counts in a local variable and stores the
  final count at the end, where the source increments `self.count` at every pass.
  Nothing reads the count in between.
- Simulation.Dvr.Round: `RefreshAndCollect` returns the refreshed table and then
  stores it, where the source writes each row into `node_table` directly. No read in
  between sees the difference.
- Simulation.Dvr.Visit, Simulation.Dvr.FillRow, Simulation.Dvr.BuildTables,
  Simulation.ComputeOne and ConfigReader.FullRow are the bodies of the source's loops,
  split into methods of their own.
- `Edge.adjust` and the geometry of edges are not modelled.

## Findings

| source | as written | input that shows it | evidently intended | confidence | as-written member | corrected member |
|---|---|---|---|---|---|---|
| simulation.py:190-193 | `remove_edge` removes the edge from `edge_list` but removes its far end from `neighbor_nodes` by value, at the far end's first occurrence. With parallel edges the two lists then fall out of step, and `get_edge_cost_between` (simulation.py:198-210) reads the cost of the wrong edge. | Node A has edges A-B (cost 5), A-C (cost 1) and a second A-B. Removing the second A-B leaves `edge_list = [A-B, A-C]` and `neighbor_nodes = [C, B]`, so the cost from A to C is reported as 5. | drop the far end at the position of the removed edge, so the cost to a node is that of an edge leading to it | not executed | Simulation.RemoveEdgeMisattributes | Simulation.Node.RemoveEdgeAligned |
| configuration_reader.py:1-56 | `ConfigParser` is imported as a class, which has no attribute `Error`. Each `except ConfigParser.Error` clause raises AttributeError when an exception reaches it, so no handler ever runs its body. | A file without `[node] option`: `parser.get` raises `NoOptionError`, and the handler at line 23 raises AttributeError instead of leaving `option` as None. The same happens for the "None" option without an `[edge]` section, and for a key without an underscore. | handlers naming `configparser.Error`: an absent option gives `(num_node, [])`, a missing section gives None | not executed | ConfigReader.HandlersRaise | ConfigReader.ReadFile |
