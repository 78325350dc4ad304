/**
 * The objects of simulation.py and DVR_module.py that the routing core updates in
 * place: `Edge`, `Node` with its parallel lists `edge_list` and `neighbor_nodes`, the
 * node's engine `Dvr`, the node registry `GraphWidget` and the coordinator
 * `NetworkSimulator`. The methods of `Dvr` and `NetworkSimulator.GenerateGraph`,
 * `Step` and `RunSimulation` are proved to compute exactly the value-level functions
 * of modules Routing and Rounds; the other methods are specified field by field, with
 * the list operations of module Seqs.
 *
 * A Python `DVR` keeps a reference to its node and to the shared `node_list`; here the
 * node's engine is a constant field of the node, and the engine's methods receive the
 * node (`owner`) and `node_list` (`nodes`) as parameters.
 */
module Simulation {
  import opened Wrappers
  import Seqs
  import Decimal
  import opened Routing
  import Rounds

  /** An edge; `cost` starts at 1 and `is_active` is kept but never consulted. */
  class Edge {
    var source: Node
    var dest: Node
    var cost: int
    var isActive: bool
    var name: string

    /** `Edge(source_node, dest_node)`: registers itself with both endpoints (twice
        with the same node for a loop). */
    constructor (sourceNode: Node, destNode: Node)
      modifies sourceNode, destNode
      ensures source == sourceNode && dest == destNode && cost == 1 && isActive
      ensures name == "Edge " + sourceNode.name + " - " + destNode.name
      ensures sourceNode != destNode ==>
        sourceNode.edgeList == old(sourceNode.edgeList) + [this] &&
        sourceNode.neighborNodes == old(sourceNode.neighborNodes) + [destNode] &&
        destNode.edgeList == old(destNode.edgeList) + [this] &&
        destNode.neighborNodes == old(destNode.neighborNodes) + [sourceNode]
      ensures sourceNode == destNode ==>
        sourceNode.edgeList == old(sourceNode.edgeList) + [this, this] &&
        sourceNode.neighborNodes == old(sourceNode.neighborNodes) + [sourceNode, sourceNode]
      ensures sourceNode.name == old(sourceNode.name) && sourceNode.nodeIndex == old(sourceNode.nodeIndex)
      ensures destNode.name == old(destNode.name) && destNode.nodeIndex == old(destNode.nodeIndex)
    {
      cost := 1;
      isActive := true;
      source := sourceNode;
      dest := destNode;
      name := "";
      new;
      sourceNode.AddEdge(this);
      destNode.AddEdge(this);
      name := "Edge " + sourceNode.name + " - " + destNode.name;
    }

    /** `set_cost`. */
    method SetCost(c: int)
      modifies this
      ensures cost == c && source == old(source) && dest == old(dest) && isActive == old(isActive)
      ensures name == old(name)
    {
      cost := c;
    }
  }

  /** A node: its name, its index in `node_list` once registered, its edges and, at the
      same positions, the far ends of those edges; and its engine. */
  class Node {
    var name: string
    var nodeIndex: Option<int>
    var edgeList: seq<Edge>
    var neighborNodes: seq<Node>
    const dvr: Dvr

    /** `Node(graph_widget, name)`: no index, no edges, an uninitialized engine. */
    constructor (n: nat)
      ensures name == Decimal.NatToString(n) && nodeIndex == None
      ensures edgeList == [] && neighborNodes == []
      ensures fresh(dvr) && dvr.State() == EngineState(None, [], [], [], [], false)
    {
      name := Decimal.NatToString(n);
      nodeIndex := None;
      edgeList := [];
      neighborNodes := [];
      dvr := new Dvr();
    }

    /** `get_node_attached`: the other end of the edge, seen from this node. */
    function GetNodeAttached(edge: Edge): (r: Node)
      reads edge
      ensures (this == edge.source || this == edge.dest) ==> {this, r} == {edge.source, edge.dest}
      ensures this != edge.source && this != edge.dest ==> r == edge.source
    {
      if edge.source == this then edge.dest else edge.source
    }

    /** The far end of every edge of a list, in order. */
    function FarEnds(edges: seq<Edge>): (r: seq<Node>)
      reads edges
      ensures |r| == |edges| && forall k :: 0 <= k < |edges| ==> r[k] == GetNodeAttached(edges[k])
    {
      seq(|edges|, k requires 0 <= k < |edges| reads edges => GetNodeAttached(edges[k]))
    }

    /** The parallel-list discipline: `neighbor_nodes[k]` is the far end of `edge_list[k]`. */
    predicate Aligned()
      reads this, edgeList
    {
      neighborNodes == FarEnds(edgeList)
    }

    /** The weaker discipline that `remove_edge` keeps: the same far ends, in any order. */
    predicate Balanced()
      reads this, edgeList
    {
      multiset(neighborNodes) == multiset(FarEnds(edgeList))
    }

    lemma FarEndsDrop(edges: seq<Edge>, k: nat)
      requires k < |edges|
      ensures FarEnds(edges[..k] + edges[k + 1..]) == FarEnds(edges)[..k] + FarEnds(edges)[k + 1..]
    {
    }

    lemma AlignedBalanced()
      ensures Aligned() ==> Balanced()
    {
    }

    /** `add_edge`: the edge and its far end are appended to the two lists. */
    method AddEdge(edge: Edge)
      modifies this
      ensures edgeList == old(edgeList) + [edge]
      ensures neighborNodes == old(neighborNodes) + [GetNodeAttached(edge)]
      ensures name == old(name) && nodeIndex == old(nodeIndex)
      ensures old(Aligned()) ==> Aligned()
      ensures old(Balanced()) ==> Balanced()
    {
      edgeList := edgeList + [edge];
      var attachedNode := GetNodeAttached(edge);
      neighborNodes := neighborNodes + [attachedNode];
      assert FarEnds(edgeList) == old(FarEnds(edgeList)) + [attachedNode];
    }

    /** `remove_edge`: the first occurrence of the edge leaves `edge_list`, and the first
        occurrence of its far end leaves `neighbor_nodes` (Python's `list.remove`, which
        raises when the item is absent). The far ends stay the same as a multiset, but
        the two lists can fall out of step. */
    method RemoveEdge(edge: Edge)
      requires edge in edgeList && GetNodeAttached(edge) in neighborNodes
      modifies this
      ensures edgeList == Seqs.RemoveFirst(old(edgeList), edge)
      ensures neighborNodes == Seqs.RemoveFirst(old(neighborNodes), GetNodeAttached(edge))
      ensures |edgeList| == |old(edgeList)| - 1 && |neighborNodes| == |old(neighborNodes)| - 1
      ensures name == old(name) && nodeIndex == old(nodeIndex)
      ensures old(Balanced()) ==> Balanced()
    {
      var attachedNode := GetNodeAttached(edge);
      RemoveFirstBalanced(edgeList, neighborNodes, edge);
      ghost var far := FarEnds(Seqs.RemoveFirst(edgeList, edge));
      edgeList := Seqs.RemoveFirst(edgeList, edge);
      neighborNodes := Seqs.RemoveFirst(neighborNodes, attachedNode);
      assert FarEnds(edgeList) == far;
    }

    /** Removing the first occurrence of an edge and of its far end from two lists with
        the same far ends leaves two lists with the same far ends. */
    lemma RemoveFirstBalanced(edges: seq<Edge>, nodes: seq<Node>, edge: Edge)
      requires edge in edges && GetNodeAttached(edge) in nodes
      ensures |Seqs.RemoveFirst(edges, edge)| == |edges| - 1
      ensures |Seqs.RemoveFirst(nodes, GetNodeAttached(edge))| == |nodes| - 1
      ensures multiset(nodes) == multiset(FarEnds(edges)) ==>
        multiset(Seqs.RemoveFirst(nodes, GetNodeAttached(edge))) == multiset(FarEnds(Seqs.RemoveFirst(edges, edge)))
    {
      var far := FarEnds(edges);
      var k := Seqs.IndexOf(edges, edge);
      FarEndsDrop(edges, k);
      Seqs.RemoveFirstMultiset(edges, edge);
      Seqs.RemoveFirstMultiset(nodes, GetNodeAttached(edge));
      if multiset(nodes) == multiset(far) {
        Seqs.RemoveFirstMatchesAt(nodes, far, k, GetNodeAttached(edge));
      }
    }

    /** `remove_edge` as evidently intended: the far end removed is the one at the
        position of the removed edge, so the two lists stay in step. */
    method RemoveEdgeAligned(edge: Edge)
      requires edge in edgeList && Aligned()
      modifies this
      ensures var k := Seqs.IndexOf(old(edgeList), edge);
        edgeList == Seqs.RemoveFirst(old(edgeList), edge) &&
        neighborNodes == old(neighborNodes)[..k] + old(neighborNodes)[k + 1..]
      ensures name == old(name) && nodeIndex == old(nodeIndex)
      ensures Aligned() && Balanced()
    {
      var k := Seqs.IndexOf(edgeList, edge);
      FarEndsDrop(edgeList, k);
      Seqs.RemoveAtMultiset(neighborNodes, k);
      edgeList := Seqs.RemoveFirst(edgeList, edge);
      neighborNodes := neighborNodes[..k] + neighborNodes[k + 1..];
    }

    /** `get_edge_cost_between`: 0 for the node itself; otherwise the cost of the edge at
        the first position of the node in `neighbor_nodes`; `None` when it is not a
        neighbour (the bare `except` also turns a missing edge into `None`). */
    function CostBetween(node: Node): (r: Cell)
      reads this, edgeList
      ensures node == this ==> r == Some(0)
      ensures node != this && node !in neighborNodes ==> r.None?
      ensures r.Some? && node != this ==>
        exists k :: 0 <= k < |neighborNodes| && k < |edgeList| && neighborNodes[k] == node &&
          r.value == edgeList[k].cost && forall j :: 0 <= j < k ==> neighborNodes[j] != node
    {
      if node == this then Some(0)
      else if node !in neighborNodes then None
      else
        var k := Seqs.IndexOf(neighborNodes, node);
        if k < |edgeList| then Some(edgeList[k].cost) else None
    }

    /** With the lists in step, the cost to another node is that of the first edge whose
        far end it is, and `None` exactly when no edge leads there. */
    lemma CostOfFirstEdge(node: Node)
      requires Aligned() && node != this
      ensures CostBetween(node).None? <==> forall k :: 0 <= k < |edgeList| ==> GetNodeAttached(edgeList[k]) != node
      ensures CostBetween(node).Some? ==>
        exists k :: 0 <= k < |edgeList| && GetNodeAttached(edgeList[k]) == node &&
          CostBetween(node) == Some(edgeList[k].cost) &&
          forall j :: 0 <= j < k ==> GetNodeAttached(edgeList[j]) != node
    {
      if node in neighborNodes {
        var k := Seqs.IndexOf(neighborNodes, node);
        assert GetNodeAttached(edgeList[k]) == node;
      } else {
        forall k | 0 <= k < |edgeList| ensures GetNodeAttached(edgeList[k]) != node {
          assert neighborNodes[k] in neighborNodes;
        }
      }
    }

    /** What the loop of `calculate_distance_vector` over `nodes` relies on while it runs:
        the node is registered at `self`; its lists show `links`; the engines are in the
        states `cur`, which are those of `st` but for the own one's scratch fields. */
    ghost predicate Sees(nodes: seq<Node>, self: nat, links: Links, st: seq<EngineState>, cur: seq<EngineState>)
      reads this, edgeList, neighborNodes, nodes, Engines(nodes)
    {
      |st| == |nodes| && |cur| == |nodes| && Prepared(self, links, st) && nodes[self] == this &&
      (forall j :: 0 <= j < |nodes| && j != self ==> cur[j] == st[j]) &&
      cur[self].nodeTable == st[self].nodeTable && cur[self].learnTable == st[self].learnTable &&
      Registered(nodes) && LinksOf(this, nodes) == links && States(nodes) == cur
    }

    /** The cost query never consults `is_active`: it depends on the edges' costs only. */
    twostate lemma CostIgnoresActive(node: Node)
      requires unchanged(this)
      requires forall k :: 0 <= k < |edgeList| ==> edgeList[k].cost == old(edgeList[k].cost)
      ensures CostBetween(node) == old(CostBetween(node))
    {
    }
  }

  /** `remove_edge` as written, on a node A with edges e1 = A-B (cost 5), e2 = A-C (cost 1)
      and a second edge e3 = A-B: removing e3 drops the first B from `neighbor_nodes`, so
      C moves to the position of e1 and `get_edge_cost_between(C)` answers e1's cost 5
      although the only edge to C costs 1. */
  method RemoveEdgeMisattributes() returns (a: Node, c: Node, e2: Edge)
    ensures |a.edgeList| == 2 && a.edgeList[1] == e2 && a.GetNodeAttached(e2) == c && e2.cost == 1
    ensures forall k :: 0 <= k < |a.edgeList| && a.GetNodeAttached(a.edgeList[k]) == c ==> k == 1
    ensures a.CostBetween(c) == Some(5) && !a.Aligned()
  {
    var b, e1, e3;
    a, b, c, e1, e2, e3 := ParallelEdges();
    a.RemoveEdge(e3);
    assert a.edgeList == [e1, e2] && a.neighborNodes == [c, b];
  }

  /** Node A with edges e1 = A-B of cost 5, e2 = A-C of cost 1 and e3 = A-B of cost 1. */
  method ParallelEdges() returns (a: Node, b: Node, c: Node, e1: Edge, e2: Edge, e3: Edge)
    ensures fresh(a) && fresh(b) && fresh(c) && fresh(e1) && fresh(e2) && fresh(e3)
    ensures a != b && a != c && b != c && e1 != e2 && e1 != e3 && e2 != e3
    ensures a.edgeList == [e1, e2, e3] && a.neighborNodes == [b, c, b]
    ensures e1.source == a && e1.dest == b && e2.source == a && e2.dest == c && e3.source == a && e3.dest == b
    ensures e1.cost == 5 && e2.cost == 1
  {
    a := new Node(1);
    b := new Node(2);
    c := new Node(3);
    e1 := new Edge(a, b);
    e2 := new Edge(a, c);
    assert a.edgeList == [e1, e2] && a.neighborNodes == [b, c];
    e3 := new Edge(a, b);
    assert a.edgeList == [e1, e2, e3];
    e1.SetCost(5);
  }

  // ---------------------------------------------------------------- views of the heap

  /** The node indices of a list of nodes, in order. */
  function IndicesOf(ns: seq<Node>): (r: seq<Option<int>>)
    reads ns
    ensures |r| == |ns| && forall k :: 0 <= k < |ns| ==> r[k] == ns[k].nodeIndex
  {
    seq(|ns|, k requires 0 <= k < |ns| reads ns => ns[k].nodeIndex)
  }

  /** What `owner` knows of every node of `nodes` through its own lists. */
  function LinksOf(owner: Node, nodes: seq<Node>): (l: Links)
    reads owner, owner.edgeList, owner.neighborNodes
    ensures |l.isSelf| == |nodes| && |l.isNeighbor| == |nodes| && |l.cost| == |nodes|
  {
    Links(seq(|nodes|, m requires 0 <= m < |nodes| => nodes[m] == owner),
          seq(|nodes|, m requires 0 <= m < |nodes| reads owner => nodes[m] in owner.neighborNodes),
          seq(|nodes|, m requires 0 <= m < |nodes| reads owner, owner.edgeList => owner.CostBetween(nodes[m])),
          IndicesOf(owner.neighborNodes))
  }

  /** Every object whose fields `Topology(nodes)` reads. */
  ghost function NodeFrame(nodes: seq<Node>): set<object>
    reads nodes
  {
    (set k | 0 <= k < |nodes| :: nodes[k] as object) +
    (set k, e | 0 <= k < |nodes| && e in nodes[k].edgeList :: e as object) +
    (set k, x | 0 <= k < |nodes| && x in nodes[k].neighborNodes :: x as object)
  }

  ghost function Topology(nodes: seq<Node>): (t: seq<Links>)
    reads NodeFrame(nodes)
    ensures |t| == |nodes| && forall k :: 0 <= k < |nodes| ==> t[k] == LinksOf(nodes[k], nodes)
  {
    seq(|nodes|, k requires 0 <= k < |nodes| reads NodeFrame(nodes) =>
      assert nodes[k] in NodeFrame(nodes);
      assert forall e :: e in nodes[k].edgeList ==> e in NodeFrame(nodes);
      assert forall x :: x in nodes[k].neighborNodes ==> x in NodeFrame(nodes);
      LinksOf(nodes[k], nodes))
  }

  /** The engines of a list of nodes. */
  function Engines(nodes: seq<Node>): set<Dvr>
  {
    set k | 0 <= k < |nodes| :: nodes[k].dvr
  }

  ghost function States(nodes: seq<Node>): (s: seq<EngineState>)
    reads Engines(nodes)
    ensures |s| == |nodes| && forall k :: 0 <= k < |nodes| ==> s[k] == nodes[k].dvr.State()
  {
    seq(|nodes|, k requires 0 <= k < |nodes| reads Engines(nodes) => nodes[k].dvr.State())
  }

  /** Distinct nodes have distinct engines. */
  predicate DistinctEngines(nodes: seq<Node>)
  {
    forall j, k :: 0 <= j < k < |nodes| ==> nodes[j].dvr != nodes[k].dvr
  }

  /** Node k of `node_list` has index k, and no two nodes share an engine. */
  predicate Registered(nodes: seq<Node>)
    reads nodes
  {
    (forall k :: 0 <= k < |nodes| ==> nodes[k].nodeIndex == Some(k)) && DistinctEngines(nodes)
  }

  /** The engine state of a node (`DVR`); `is_converged` is never read and is left out. */
  class Dvr {
    var nodeIndex: Option<int>
    var neighborIndex: seq<Option<int>>
    var nodeTable: Table
    var tempTable: Table
    var learnTable: seq<Cell>
    var isInitialized: bool

    function State(): EngineState
      reads this
    {
      EngineState(nodeIndex, neighborIndex, nodeTable, tempTable, learnTable, isInitialized)
    }

    constructor ()
      ensures State() == EngineState(None, [], [], [], [], false)
    {
      nodeIndex := None;
      neighborIndex := [];
      nodeTable := [];
      tempTable := [];
      learnTable := [];
      isInitialized := false;
    }

    /** `update_neighbor_index`: the indices of the node's neighbours, in their order. */
    method UpdateNeighborIndex(node: Node)
      modifies this
      ensures neighborIndex == IndicesOf(node.neighborNodes)
      ensures State() == old(State()).(neighborIndex := neighborIndex)
    {
      neighborIndex := [];
      var k := 0;
      while k < |node.neighborNodes|
        invariant 0 <= k <= |node.neighborNodes|
        invariant neighborIndex == IndicesOf(node.neighborNodes[..k])
        invariant State() == old(State()).(neighborIndex := neighborIndex)
      {
        var index := node.neighborNodes[k].nodeIndex;
        neighborIndex := neighborIndex + [index];
        k := k + 1;
      }
      assert node.neighborNodes[..k] == node.neighborNodes;
    }

    /** `initialize_node_table` of the engine of `owner` over `nodes` (`node_list`). */
    method InitializeNodeTable(owner: Node, nodes: seq<Node>)
      requires CanInit(State(), owner.nodeIndex, LinksOf(owner, nodes))
      modifies this
      ensures State() == Init(old(State()), old(owner.nodeIndex), old(LinksOf(owner, nodes)))
    {
      ghost var links := LinksOf(owner, nodes);
      ghost var e0 := State();
      nodeIndex := owner.nodeIndex;
      BuildTables(owner, nodes, links);
      UpdateNeighborIndex(owner);
      assert neighborIndex == links.neighborIndex;
      learnTable := learnTable[nodeIndex.value := nodeIndex];
      ghost var l := learnTable;
      MarkNeighbors();
      isInitialized := true;
      UpdateNeighborIndex(owner);
      assert State() == e0.(nodeIndex := nodeIndex, neighborIndex := links.neighborIndex, nodeTable := InitTable(links),
                            learnTable := MarkAll(l, links.neighborIndex), isInitialized := true);
    }

    /** The nested loops of `initialize_node_table`: one row per node of `nodes`, the
        own row filled with the direct costs and every other row with `None`, and one
        zero appended to `learn_table` per node. */
    method BuildTables(owner: Node, nodes: seq<Node>, ghost links: Links)
      requires |links.isSelf| == |links.cost| == |nodes|
      requires forall m :: 0 <= m < |nodes| ==>
        links.isSelf[m] == (nodes[m] == owner) && links.cost[m] == owner.CostBetween(nodes[m])
      modifies this
      ensures nodeTable == InitTable(links) && learnTable == old(learnTable) + Zeros(|nodes|)
      ensures State() == old(State()).(nodeTable := nodeTable, learnTable := learnTable)
    {
      nodeTable := [];
      var i := 0;
      while i < |nodes|
        invariant 0 <= i <= |nodes|
        invariant nodeTable == InitTable(links)[..i]
        invariant learnTable == old(learnTable) + Zeros(i)
        invariant State() == old(State()).(nodeTable := nodeTable, learnTable := learnTable)
      {
        nodeTable := nodeTable + [[]];
        learnTable := learnTable + [Some(0)];
        assert learnTable == old(learnTable) + Zeros(i + 1);
        FillRow(owner, nodes, i, links);
        assert nodeTable == InitTable(links)[..i + 1];
        i := i + 1;
      }
    }

    /** The inner loop of `initialize_node_table`: row i gets one cell per node. */
    method FillRow(owner: Node, nodes: seq<Node>, i: nat, ghost links: Links)
      requires |links.isSelf| == |links.cost| == |nodes| && i < |nodes|
      requires links.isSelf[i] == (nodes[i] == owner)
      requires forall m :: 0 <= m < |nodes| ==> links.cost[m] == owner.CostBetween(nodes[m])
      requires |nodeTable| == i + 1 && nodeTable[i] == []
      modifies this
      ensures nodeTable == old(nodeTable)[i := InitTable(links)[i]]
      ensures State() == old(State()).(nodeTable := nodeTable)
    {
      var j := 0;
      while j < |nodes|
        invariant 0 <= j <= |nodes|
        invariant nodeTable == old(nodeTable)[i := InitTable(links)[i][..j]]
        invariant State() == old(State()).(nodeTable := nodeTable)
      {
        assert InitTable(links)[i][..j + 1] == InitTable(links)[i][..j] + [InitTable(links)[i][j]];
        if nodes[i] == owner {
          nodeTable := nodeTable[i := nodeTable[i] + [owner.CostBetween(nodes[j])]];
        } else {
          nodeTable := nodeTable[i := nodeTable[i] + [None]];
        }
        j := j + 1;
      }
      assert InitTable(links)[i][..j] == InitTable(links)[i];
    }

    /** The last loop of `initialize_node_table`: every neighbour's entry of
        `learn_table` names the neighbour itself. */
    method MarkNeighbors()
      requires forall k :: 0 <= k < |neighborIndex| ==> neighborIndex[k].Some? && 0 <= neighborIndex[k].value < |learnTable|
      modifies this
      ensures State() == old(State()).(learnTable := learnTable)
      ensures learnTable == MarkAll(old(learnTable), old(neighborIndex))
    {
      var k := 0;
      while k < |neighborIndex|
        invariant State() == old(State()).(learnTable := learnTable)
        invariant 0 <= k <= |neighborIndex| && |learnTable| == |old(learnTable)|
        invariant MarkAll(learnTable, neighborIndex[k..]) == MarkAll(old(learnTable), neighborIndex)
      {
        var index := neighborIndex[k];
        assert neighborIndex[k..][1..] == neighborIndex[k + 1..];
        learnTable := learnTable[index.value := index];
        k := k + 1;
      }
    }

    /** `calculate_distance_vector` of the engine of `owner` over `nodes` (`node_list`):
        `None` and no change before initialization; otherwise the round `Calc` of the
        node, computed from the engine states as they were on entry, and its flag. */
    method CalculateDistanceVector(owner: Node, nodes: seq<Node>) returns (r: Option<bool>)
      requires owner.dvr == this && Registered(nodes)
      requires isInitialized ==>
        nodeIndex.Some? && 0 <= nodeIndex.value < |nodes| && nodes[nodeIndex.value] == owner &&
        Prepared(nodeIndex.value, LinksOf(owner, nodes), States(nodes))
      modifies this
      ensures !old(isInitialized) ==> r == None && State() == old(State())
      ensures old(isInitialized) ==>
        var c := Calc(old(nodeIndex.value), old(LinksOf(owner, nodes)), old(States(nodes)));
        r == Some(c.1) && State() == c.0
    {
      if !isInitialized {
        return None;
      }
      ghost var st := States(nodes);
      ghost var links := LinksOf(owner, nodes);
      var self := nodeIndex.value;
      UpdateNeighborIndex(owner);
      tempTable := nodeTable;
      assert st[self] == old(State());
      assert forall j :: 0 <= j < |nodes| && j != self ==> nodes[j].dvr != this;
      var changed := Round(owner, nodes, self, links, st);
      return Some(changed);
    }

    /** The part of `calculate_distance_vector` after `update_neighbor_index` and the copy
        into `temp_table`: the round `Calc` of the node over the entry states `st`. */
    method Round(owner: Node, nodes: seq<Node>, self: nat, ghost links: Links, ghost st: seq<EngineState>)
      returns (changed: bool)
      requires |st| == |nodes| && Prepared(self, links, st) && nodes[self] == owner && owner.dvr == this
      requires Registered(nodes) && LinksOf(owner, nodes) == links
      requires State() == st[self].(neighborIndex := links.neighborIndex, tempTable := st[self].nodeTable)
      requires forall j :: 0 <= j < |nodes| && j != self ==> nodes[j].dvr.State() == st[j]
      modifies this
      ensures (State(), changed) == Calc(self, links, st)
    {
      ghost var cur := States(nodes);
      assert cur[self] == State();
      var table, dv, via := RefreshAndCollect(owner, nodes, self, links, st, cur);
      nodeTable := table;
      ChooseRoutes(self, dv, via, links, st);
      changed := IsDvChanged();
      CalcIs(self, links, st, State(), nodeTable, tempTable, learnTable, changed);
    }

    /** The loop of `calculate_distance_vector` over `node_list`: a neighbour's row is
        replaced by the neighbour's own row and its offers are collected per destination;
        any other node's row but the own one becomes all `None`. `st` are the engine
        states on entry to the round. */
    method RefreshAndCollect(owner: Node, nodes: seq<Node>, self: nat, ghost links: Links, ghost st: seq<EngineState>,
                             ghost cur: seq<EngineState>)
      returns (table: Table, dv: seq<seq<int>>, via: seq<seq<int>>)
      requires owner.dvr == this && owner.Sees(nodes, self, links, st, cur)
      ensures RefreshedUpTo(self, links, st, table, |nodes|)
      ensures CollectedUpTo(self, links, st, dv, via, |nodes|)
    {
      dv := seq(|nodeTable|, _ => []);
      via := seq(|nodeTable|, _ => []);
      StartUpTo(self, links, st);
      table := nodeTable;
      var m := 0;
      while m < |nodes|
        invariant 0 <= m <= |nodes|
        invariant RefreshedUpTo(self, links, st, table, m)
        invariant CollectedUpTo(self, links, st, dv, via, m)
        invariant owner.Sees(nodes, self, links, st, cur)
      {
        table, dv, via := Visit(owner, nodes, self, m, links, st, cur, table, dv, via);
        m := m + 1;
      }
    }

    /** One pass of the loop over `node_list`, for node m: the rows written so far are
        `table`. Only row m is written, after the neighbour's own row m has been read, so
        the engine's own cached rows are those of `st`. */
    method Visit(owner: Node, nodes: seq<Node>, self: nat, m: nat, ghost links: Links, ghost st: seq<EngineState>,
                 ghost cur: seq<EngineState>, table: Table, dv: seq<seq<int>>, via: seq<seq<int>>)
      returns (table': Table, dv': seq<seq<int>>, via': seq<seq<int>>)
      requires owner.dvr == this && owner.Sees(nodes, self, links, st, cur) && m < |nodes|
      requires RefreshedUpTo(self, links, st, table, m) && CollectedUpTo(self, links, st, dv, via, m)
      ensures RefreshedUpTo(self, links, st, table', m + 1)
      ensures CollectedUpTo(self, links, st, dv', via', m + 1)
      ensures owner.Sees(nodes, self, links, st, cur)
    {
      var node := nodes[m];
      var index := node.nodeIndex.value;
      RefreshNext(self, links, st, table, m);
      if node in owner.neighborNodes {
        var costBetween := owner.CostBetween(node);
        assert node.dvr.nodeTable[index] == st[m].nodeTable[m] && node.dvr.learnTable == st[m].learnTable by {
          if node.dvr == this {
            assert m == self;
          }
        }
        var dvNode := node.dvr.nodeTable[index];
        table' := table[index := dvNode];
        dv', via' := AppendOffers(self, index, dvNode, node.dvr.learnTable, costBetween.value, dv, via);
        CollectNext(self, links, st, dv, via, dv', via', m);
      } else {
        if node != owner {
          table' := table[index := Unknown(|nodes|)];
        } else {
          table' := table;
          assert table == table[m := Refreshed(self, links, st)[m]];
        }
        dv', via' := dv, via;
        CollectNext(self, links, st, dv, via, dv, via, m);
      }
    }

    /** The last loop of `calculate_distance_vector`: `compute_min` per destination, into
        the own row of `temp_table` and into `learn_table`. */
    method ChooseRoutes(self: nat, dv: seq<seq<int>>, via: seq<seq<int>>, ghost links: Links, ghost st: seq<EngineState>)
      requires Prepared(self, links, st) && CollectedUpTo(self, links, st, dv, via, |st|)
      requires tempTable == st[self].nodeTable && learnTable == st[self].learnTable
      modifies this
      ensures tempTable == st[self].nodeTable[self := NewRow(self, links, st)]
      ensures learnTable == NewLearn(self, links, st)
      ensures State() == old(State()).(tempTable := tempTable, learnTable := learnTable)
    {
      CollectedAll(self, links, st, dv, via);
      var i := 0;
      while i < |tempTable[self]|
        invariant State() == old(State()).(tempTable := tempTable, learnTable := learnTable)
        invariant 0 <= i <= |st| && ChosenUpTo(self, links, st, tempTable, learnTable, i)
      {
        var (minValue, index) := ComputeMin(dv[i], via[i]);
        ChooseNext(self, links, st, tempTable, learnTable, i);
        tempTable := tempTable[self := tempTable[self][i := minValue]];
        learnTable := learnTable[i := index];
        i := i + 1;
      }
      ChosenAll(self, links, st, tempTable, learnTable);
    }

    /** `is_DV_changed`: whether some cell of `node_table` differs from the same cell of
        `temp_table`. */
    method IsDvChanged() returns (r: bool)
      requires |tempTable| >= |nodeTable|
      requires forall i :: 0 <= i < |nodeTable| ==> |tempTable[i]| >= |nodeTable[i]|
      ensures r == Differs(nodeTable, tempTable)
    {
      var i := 0;
      while i < |nodeTable|
        invariant 0 <= i <= |nodeTable|
        invariant forall a, b :: 0 <= a < i && 0 <= b < |nodeTable[a]| ==> nodeTable[a][b] == tempTable[a][b]
      {
        var j := 0;
        while j < |nodeTable[i]|
          invariant 0 <= j <= |nodeTable[i]|
          invariant forall b :: 0 <= b < j ==> nodeTable[i][b] == tempTable[i][b]
        {
          if nodeTable[i][j] != tempTable[i][j] {
            return true;
          }
          j := j + 1;
        }
        i := i + 1;
      }
      return false;
    }

    /** `update_distance_vector`: the own row of `temp_table` is committed. */
    method UpdateDistanceVector()
      requires nodeIndex.Some? && 0 <= nodeIndex.value < |nodeTable| && nodeIndex.value < |tempTable|
      modifies this
      ensures State() == Commit(old(State()))
    {
      nodeTable := nodeTable[nodeIndex.value := tempTable[nodeIndex.value]];
    }
  }

  /** The inner loop of `calculate_distance_vector` for neighbour `m`, which advertises
      `advertised` with `learn_table` `learn` over an edge of cost `c`: each destination's
      candidate lists get that neighbour's offer, if it makes one. */
  method AppendOffers(self: nat, m: nat, advertised: Row, learn: seq<Cell>, c: int,
                      dv: seq<seq<int>>, via: seq<seq<int>>) returns (dv': seq<seq<int>>, via': seq<seq<int>>)
    requires |advertised| == |dv| == |via| <= |learn|
    ensures |dv'| == |dv| && |via'| == |via|
    ensures forall d :: 0 <= d < |dv| ==>
      var o := NeighborOffer(self, d, m, advertised, learn, c);
      dv'[d] == dv[d] + (if o.Some? then [o.value.cost] else []) &&
      via'[d] == via[d] + (if o.Some? then [o.value.via] else [])
  {
    dv', via' := dv, via;
    var i := 0;
    while i < |dv|
      invariant 0 <= i <= |dv| && |dv'| == |dv| && |via'| == |via|
      invariant forall d :: 0 <= d < i ==>
        var o := NeighborOffer(self, d, m, advertised, learn, c);
        dv'[d] == dv[d] + (if o.Some? then [o.value.cost] else []) &&
        via'[d] == via[d] + (if o.Some? then [o.value.via] else [])
      invariant forall d :: i <= d < |dv| ==> dv'[d] == dv[d] && via'[d] == via[d]
    {
      if i == self {
        dv' := dv'[i := dv'[i] + [0]];
        via' := via'[i := via'[i] + [i]];
      } else if advertised[i].None? {
      } else if learn[i] == Some(self) {
        dv' := dv'[i := dv'[i] + [Penalty + c]];
        via' := via'[i := via'[i] + [m]];
      } else {
        dv' := dv'[i := dv'[i] + [advertised[i].value + c]];
        via' := via'[i := via'[i] + [m]];
      }
      i := i + 1;
    }
  }

  // ---------------------------------------------------------------- the registry

  /** The first node of a list with the given name. */
  function FindByName(ns: seq<Node>, name: string): (r: Option<Node>)
    reads ns
    ensures r.Some? ==> r.value in ns && r.value.name == name
    ensures r.None? <==> forall k :: 0 <= k < |ns| ==> ns[k].name != name
  {
    if ns == [] then None
    else if ns[0].name == name then Some(ns[0])
    else
      var r := FindByName(ns[1..], name);
      assert forall k :: 1 <= k < |ns| ==> ns[k] == ns[1..][k - 1];
      r
  }

  /** The node found is the first one with that name. */
  lemma {:induction false} FindByNameFirst(ns: seq<Node>, name: string, k: nat)
    requires k < |ns| && ns[k].name == name
    requires forall j :: 0 <= j < k ==> ns[j].name != name
    ensures FindByName(ns, name) == Some(ns[k])
  {
    if k > 0 {
      assert ns[0].name != name;
      FindByNameFirst(ns[1..], name, k - 1);
    }
  }

  /** The node registry (`GraphWidget`): counters and the lists of nodes and edges, and
      the cost matrix `network_graph` that `generate_graph` stores. */
  class GraphWidget {
    var numNodes: nat
    var numEdges: nat
    var nodeList: seq<Node>
    var edgeList: seq<Edge>
    var networkGraph: seq<seq<Cell>>

    /** What `add_item` and `reset` keep: the counters count the lists, node k has index
        k and name str(k + 1), and no two nodes share an engine. */
    predicate Valid()
      reads this, nodeList
    {
      numNodes == |nodeList| && numEdges == |edgeList| &&
      (forall k :: 0 <= k < |nodeList| ==>
        nodeList[k].nodeIndex == Some(k) && nodeList[k].name == Decimal.NatToString(k + 1)) &&
      DistinctEngines(nodeList)
    }

    /** An empty registry; the demonstration triangle the widget's constructor adds is
        not part of this model. */
    constructor ()
      ensures numNodes == 0 && numEdges == 0 && nodeList == [] && edgeList == [] && networkGraph == []
      ensures Valid()
    {
      numNodes := 0;
      numEdges := 0;
      nodeList := [];
      edgeList := [];
      networkGraph := [];
    }

    /** `add_item` on a node: it gets the next index and the name of the new count. */
    method AddNodeItem(item: Node)
      modifies this, item
      ensures item.nodeIndex == Some(old(numNodes)) && numNodes == old(numNodes) + 1
      ensures item.name == Decimal.NatToString(numNodes)
      ensures nodeList == old(nodeList) + [item]
      ensures numEdges == old(numEdges) && edgeList == old(edgeList) && networkGraph == old(networkGraph)
      ensures item.edgeList == old(item.edgeList) && item.neighborNodes == old(item.neighborNodes)
      ensures old(Valid()) && item !in old(nodeList) && item.dvr !in Engines(old(nodeList)) ==> Valid()
    {
      item.nodeIndex := Some(numNodes);
      numNodes := numNodes + 1;
      item.name := Decimal.NatToString(numNodes);
      nodeList := nodeList + [item];
      if old(Valid()) && item !in old(nodeList) && item.dvr !in Engines(old(nodeList)) {
        forall k | 0 <= k < |nodeList| - 1
          ensures nodeList[k].nodeIndex == Some(k) && nodeList[k].name == Decimal.NatToString(k + 1)
        {
          assert nodeList[k] == old(nodeList)[k] && nodeList[k] != item;
        }
        forall j | 0 <= j < |nodeList| - 1 ensures nodeList[j].dvr != item.dvr {
          assert old(nodeList)[j].dvr in Engines(old(nodeList));
        }
      }
    }

    /** `add_item` on an edge: it is counted and listed. */
    method AddEdgeItem(item: Edge)
      modifies this
      ensures numEdges == old(numEdges) + 1 && edgeList == old(edgeList) + [item]
      ensures numNodes == old(numNodes) && nodeList == old(nodeList) && networkGraph == old(networkGraph)
      ensures old(Valid()) ==> Valid()
    {
      numEdges := numEdges + 1;
      edgeList := edgeList + [item];
    }

    /** `reset`: both counters zero, all three lists empty. */
    method Reset()
      modifies this
      ensures numNodes == 0 && numEdges == 0 && nodeList == [] && edgeList == [] && networkGraph == []
      ensures Valid()
    {
      numNodes := 0;
      numEdges := 0;
      nodeList := [];
      edgeList := [];
      networkGraph := [];
    }

    /** `get_node`: the first node of `node_list` with that name, or `None`. */
    function GetNode(name: string): (r: Option<Node>)
      reads this, nodeList
      ensures r.Some? ==> r.value in nodeList && r.value.name == name
      ensures r.None? <==> forall k :: 0 <= k < |nodeList| ==> nodeList[k].name != name
    {
      FindByName(nodeList, name)
    }

    /** In a valid registry the name str(k + 1) finds node k. */
    lemma GetNodeByNumber(k: nat)
      requires Valid() && k < |nodeList|
      ensures GetNode(Decimal.NatToString(k + 1)) == Some(nodeList[k])
    {
      var name := Decimal.NatToString(k + 1);
      forall j | 0 <= j < k ensures nodeList[j].name != name {
        Decimal.NatToStringInjective(j + 1, k + 1);
      }
      FindByNameFirst(nodeList, name, k);
    }
  }

  // ---------------------------------------------------------------- the coordinator

  /** Every neighbour of every node is itself in `node_list`. */
  predicate Closed(nodes: seq<Node>)
    reads nodes
  {
    forall k, x :: 0 <= k < |nodes| && x in nodes[k].neighborNodes ==> x in nodes
  }

  /** Every node has as many edges as neighbours, as `add_edge` keeps them. */
  predicate Wired(nodes: seq<Node>)
    reads nodes
  {
    forall k :: 0 <= k < |nodes| ==> |nodes[k].neighborNodes| == |nodes[k].edgeList|
  }

  /** In a registry whose nodes' neighbours are all registered, every node can be
      initialized. */
  lemma RegisteredCanInit(nodes: seq<Node>)
    requires Registered(nodes) && Closed(nodes)
    ensures forall k :: 0 <= k < |nodes| ==>
      CanInit(nodes[k].dvr.State(), nodes[k].nodeIndex, LinksOf(nodes[k], nodes))
  {
    forall k, t | 0 <= k < |nodes| && 0 <= t < |nodes[k].neighborNodes|
      ensures IndexIn(nodes[k].neighborNodes[t].nodeIndex, |nodes|)
    {
      var x := nodes[k].neighborNodes[t];
      assert x in nodes[k].neighborNodes;
      assert x in nodes;
      var m := Seqs.IndexOf(nodes, x);
    }
  }

  /** With as many edges as neighbours, every neighbour has an edge cost. */
  lemma WiredLinksOk(nodes: seq<Node>)
    requires Wired(nodes)
    ensures forall k :: 0 <= k < |nodes| ==> Rounds.LinksOk(LinksOf(nodes[k], nodes), |nodes|)
  {
    forall k, m | 0 <= k < |nodes| && 0 <= m < |nodes| && nodes[m] in nodes[k].neighborNodes
      ensures nodes[k].CostBetween(nodes[m]).Some?
    {
      if nodes[m] != nodes[k] {
        var t := Seqs.IndexOf(nodes[k].neighborNodes, nodes[m]);
      }
    }
  }

  /** The loops of `step` and `run_simulation` that return early when some node is not
      initialized. */
  method EveryInitialized(nodes: seq<Node>) returns (b: bool)
    ensures b == Rounds.AllInitialized(States(nodes))
  {
    var i := 0;
    while i < |nodes|
      invariant 0 <= i <= |nodes|
      invariant forall k :: 0 <= k < i ==> nodes[k].dvr.isInitialized
    {
      if !nodes[i].dvr.isInitialized {
        return false;
      }
      i := i + 1;
    }
    return true;
  }

  /** The first loop of `generate_graph`: `get_edge_cost_between` for every pair of
      nodes, row by row. */
  method CostMatrix(nodes: seq<Node>) returns (dvList: seq<seq<Cell>>)
    ensures |dvList| == |nodes| && forall i :: 0 <= i < |nodes| ==> dvList[i] == LinksOf(nodes[i], nodes).cost
  {
    dvList := [];
    var i := 0;
    while i < |nodes|
      invariant 0 <= i <= |nodes| && |dvList| == i
      invariant forall a :: 0 <= a < i ==> dvList[a] == LinksOf(nodes[a], nodes).cost
    {
      dvList := dvList + [[]];
      var j := 0;
      while j < |nodes|
        invariant 0 <= j <= |nodes| && |dvList| == i + 1
        invariant forall a :: 0 <= a < i ==> dvList[a] == LinksOf(nodes[a], nodes).cost
        invariant dvList[i] == LinksOf(nodes[i], nodes).cost[..j]
      {
        assert LinksOf(nodes[i], nodes).cost[..j + 1] == LinksOf(nodes[i], nodes).cost[..j] + [nodes[i].CostBetween(nodes[j])];
        dvList := dvList[i := dvList[i] + [nodes[i].CostBetween(nodes[j])]];
        j := j + 1;
      }
      assert LinksOf(nodes[i], nodes).cost[..j] == LinksOf(nodes[i], nodes).cost;
      i := i + 1;
    }
  }

  /** The last loop of `generate_graph`: `initialize_node_table` on every node in turn. */
  method InitializeAll(nodes: seq<Node>)
    requires DistinctEngines(nodes)
    requires forall k :: 0 <= k < |nodes| ==>
      CanInit(nodes[k].dvr.State(), nodes[k].nodeIndex, LinksOf(nodes[k], nodes))
    modifies Engines(nodes)
    ensures forall k :: 0 <= k < |nodes| ==>
      nodes[k].dvr.State() == old(Init(nodes[k].dvr.State(), nodes[k].nodeIndex, LinksOf(nodes[k], nodes)))
  {
    var i := 0;
    while i < |nodes|
      invariant 0 <= i <= |nodes|
      invariant forall k :: 0 <= k < i ==>
        nodes[k].dvr.State() == old(Init(nodes[k].dvr.State(), nodes[k].nodeIndex, LinksOf(nodes[k], nodes)))
      invariant forall k :: i <= k < |nodes| ==> nodes[k].dvr.State() == old(nodes[k].dvr.State())
    {
      assert nodes[i].dvr in Engines(nodes);
      nodes[i].dvr.InitializeNodeTable(nodes[i], nodes);
      i := i + 1;
    }
  }

  /** The assignment of `network_graph` in `generate_graph`; it touches no node and no
      engine. */
  method StoreMatrix(graph: GraphWidget, dvList: seq<seq<Cell>>, nodes: seq<Node>)
    modifies graph
    ensures graph.networkGraph == dvList && graph.nodeList == old(graph.nodeList) && graph.edgeList == old(graph.edgeList)
    ensures graph.numNodes == old(graph.numNodes) && graph.numEdges == old(graph.numEdges)
    ensures forall k :: 0 <= k < |nodes| ==>
      LinksOf(nodes[k], nodes) == old(LinksOf(nodes[k], nodes)) && nodes[k].dvr.State() == old(nodes[k].dvr.State())
  {
    graph.networkGraph := dvList;
  }

  /** Once every engine holds the initialization of some earlier state over its node's
      current links, a registry whose nodes have as many edges as neighbours is ready for a
      step: every engine is initialized, its tables readable and its index its position. */
  lemma InitializedReady(nodes: seq<Node>, s0: seq<EngineState>)
    requires Registered(nodes) && Wired(nodes) && |s0| == |nodes|
    requires forall k :: 0 <= k < |nodes| ==>
      CanInit(s0[k], nodes[k].nodeIndex, LinksOf(nodes[k], nodes)) &&
      nodes[k].dvr.State() == Init(s0[k], nodes[k].nodeIndex, LinksOf(nodes[k], nodes))
    ensures Rounds.AllInitialized(States(nodes)) && Rounds.Ready(Topology(nodes), States(nodes))
  {
    WiredLinksOk(nodes);
    Rounds.InitAllReady(Topology(nodes), s0, States(nodes));
  }

  /** One pass of the compute loop of `step`: node i's round over the current states
      `cur`; the flag `isConverged` is cleared when the node reports a change. The
      compute phase still to come from node i + 1 ends where the one from node i would. */
  method ComputeOne(nodes: seq<Node>, i: nat, ghost topo: seq<Links>, ghost cur: seq<EngineState>, isConverged: bool)
    returns (isConverged': bool, ghost next: seq<EngineState>)
    requires Registered(nodes) && i < |nodes| && |topo| == |nodes| && LinksOf(nodes[i], nodes) == topo[i]
    requires States(nodes) == cur && Rounds.Ready(topo, cur) && Rounds.AllInitialized(cur)
    modifies nodes[i].dvr
    ensures States(nodes) == next && Rounds.Ready(topo, next) && Rounds.AllInitialized(next)
    ensures Rounds.ComputeFrom(topo, next, i + 1, !isConverged') == Rounds.ComputeFrom(topo, cur, i, !isConverged)
  {
    Rounds.ReadyPrepared(topo, cur, i);
    assert nodes[i].dvr.isInitialized;
    var changed := nodes[i].dvr.CalculateDistanceVector(nodes[i], nodes);
    next := cur[i := Calc(i, topo[i], cur).0];
    forall k | 0 <= k < |nodes| && k != i ensures nodes[k].dvr.State() == cur[k] {
      assert nodes[k].dvr != nodes[i].dvr;
    }
    isConverged' := isConverged;
    if changed == Some(true) {
      isConverged' := false;
    }
    Rounds.ComputeStep(topo, cur, i, !isConverged, next, !isConverged');
  }

  /** The compute loop of `step`: every node's round in `node_list` order, without
      stopping at a change; the result says whether no node reported one. */
  method ComputeAll(nodes: seq<Node>, ghost topo: seq<Links>) returns (isConverged: bool)
    requires Registered(nodes) && |topo| == |nodes|
    requires forall k :: 0 <= k < |nodes| ==> LinksOf(nodes[k], nodes) == topo[k]
    requires Rounds.AllInitialized(States(nodes)) && Rounds.Ready(topo, States(nodes))
    modifies Engines(nodes)
    ensures Rounds.ComputeFrom(topo, old(States(nodes)), 0, false) == (States(nodes), !isConverged)
  {
    isConverged := true;
    ghost var cur := States(nodes);
    var i := 0;
    while i < |nodes|
      invariant 0 <= i <= |nodes| && States(nodes) == cur
      invariant Rounds.Ready(topo, cur) && Rounds.AllInitialized(cur)
      invariant Rounds.ComputeFrom(topo, cur, i, !isConverged) == Rounds.ComputeFrom(topo, old(States(nodes)), 0, false)
    {
      assert nodes[i].dvr in Engines(nodes);
      isConverged, cur := ComputeOne(nodes, i, topo, cur, isConverged);
      i := i + 1;
    }
  }

  /** The commit loop of `step`: `update_distance_vector` on every node. */
  method CommitEvery(nodes: seq<Node>)
    requires DistinctEngines(nodes) && Rounds.Committable(States(nodes))
    modifies Engines(nodes)
    ensures States(nodes) == Rounds.CommitAll(old(States(nodes)))
  {
    var i := 0;
    while i < |nodes|
      invariant 0 <= i <= |nodes|
      invariant forall k :: 0 <= k < i ==> nodes[k].dvr.State() == Commit(old(nodes[k].dvr.State()))
      invariant forall k :: i <= k < |nodes| ==> nodes[k].dvr.State() == old(nodes[k].dvr.State())
    {
      assert nodes[i].dvr in Engines(nodes);
      nodes[i].dvr.UpdateDistanceVector();
      i := i + 1;
    }
  }

  /** The body of `step` over the nodes of `node_list`, whose links are `topo`. */
  method StepNodes(nodes: seq<Node>, ghost topo: seq<Links>) returns (r: Option<bool>)
    requires Registered(nodes) && |topo| == |nodes|
    requires forall k :: 0 <= k < |nodes| ==> LinksOf(nodes[k], nodes) == topo[k]
    requires Rounds.AllInitialized(States(nodes)) ==> Rounds.Ready(topo, States(nodes))
    modifies Engines(nodes)
    ensures (r, States(nodes)) == Rounds.Step(topo, old(States(nodes)))
  {
    var initialized := EveryInitialized(nodes);
    if !initialized {
      return None;
    }
    ghost var start := States(nodes);
    var isConverged := ComputeAll(nodes, topo);
    ghost var mid := States(nodes);
    Rounds.ComputedCommittable(topo, start);
    CommitEvery(nodes);
    assert States(nodes) == Rounds.CommitAll(mid);
    return Some(isConverged);
  }

  /** The coordinator (`NetworkSimulator`): the registry and the step counter. */
  class NetworkSimulator {
    var count: int
    const graph: GraphWidget

    constructor ()
      ensures count == 0 && fresh(graph)
      ensures graph.nodeList == [] && graph.edgeList == [] && graph.Valid()
    {
      count := 0;
      graph := new GraphWidget();
    }

    /** `reset`: the registry is cleared and the counter zeroed. */
    method Reset()
      modifies this, graph
      ensures count == 0 && graph.nodeList == [] && graph.edgeList == [] && graph.networkGraph == []
      ensures graph.numNodes == 0 && graph.numEdges == 0 && graph.Valid()
    {
      graph.Reset();
      count := 0;
    }

    /** `add_node`: a fresh node is registered under the next index. */
    method AddNode()
      modifies graph
      ensures |graph.nodeList| == |old(graph.nodeList)| + 1 && graph.nodeList[..|old(graph.nodeList)|] == old(graph.nodeList)
      ensures var node := graph.nodeList[|old(graph.nodeList)|];
        fresh(node) && node.nodeIndex == Some(old(graph.numNodes)) && node.name == Decimal.NatToString(graph.numNodes) &&
        node.edgeList == [] && node.neighborNodes == [] && !node.dvr.isInitialized
      ensures graph.numNodes == old(graph.numNodes) + 1 && graph.edgeList == old(graph.edgeList)
      ensures old(graph.Valid()) ==> graph.Valid()
    {
      var node := new Node(20);
      graph.AddNodeItem(node);
      assert graph.nodeList[..|old(graph.nodeList)|] == old(graph.nodeList);
    }

    /** `generate_graph`: the cost matrix is stored in `network_graph` and every node is
        initialized over its links; no node is touched, so `InitializedReady` then applies. */
    method GenerateGraph()
      requires DistinctEngines(graph.nodeList)
      requires forall k :: 0 <= k < |graph.nodeList| ==>
        CanInit(graph.nodeList[k].dvr.State(), graph.nodeList[k].nodeIndex, LinksOf(graph.nodeList[k], graph.nodeList))
      modifies graph, Engines(graph.nodeList)
      ensures graph.nodeList == old(graph.nodeList) && graph.edgeList == old(graph.edgeList)
      ensures graph.numNodes == old(graph.numNodes) && graph.numEdges == old(graph.numEdges)
      ensures |graph.networkGraph| == |graph.nodeList|
      ensures forall i :: 0 <= i < |graph.nodeList| ==> graph.networkGraph[i] == old(LinksOf(graph.nodeList[i], graph.nodeList)).cost
      ensures forall k :: 0 <= k < |graph.nodeList| ==>
        graph.nodeList[k].dvr.State() ==
        old(Init(graph.nodeList[k].dvr.State(), graph.nodeList[k].nodeIndex, LinksOf(graph.nodeList[k], graph.nodeList)))
    {
      var nodes := graph.nodeList;
      var dvList := CostMatrix(nodes);
      StoreMatrix(graph, dvList, nodes);
      InitializeAll(nodes);
    }

    /** `step`: `None` when some node is not initialized; otherwise every node's round
        and then every node's commit, and whether no node reported a change. The nodes'
        indices, lists and links are left as they were. */
    method Step() returns (r: Option<bool>)
      requires Registered(graph.nodeList)
      requires Rounds.AllInitialized(States(graph.nodeList)) ==> Rounds.Ready(Topology(graph.nodeList), States(graph.nodeList))
      modifies Engines(graph.nodeList)
      ensures (r, States(graph.nodeList)) == Rounds.Step(old(Topology(graph.nodeList)), old(States(graph.nodeList)))
      ensures Registered(graph.nodeList) && Topology(graph.nodeList) == old(Topology(graph.nodeList))
    {
      var nodes := graph.nodeList;
      ghost var topo := Topology(nodes);
      r := StepNodes(nodes, topo);
    }

    /** One pass of the loop of `run_simulation` at count `c`, on ready nodes below the
        step limit: the loop after it, from count c + 1, ends where the loop from c would. */
    method StepFlag(c: int, ghost topo: seq<Links>, ghost cur: seq<EngineState>) returns (isConverged: bool)
      requires Registered(graph.nodeList) && Topology(graph.nodeList) == topo && States(graph.nodeList) == cur
      requires Rounds.AllInitialized(cur) && Rounds.Ready(topo, cur) && c < Rounds.MaxSteps
      modifies Engines(graph.nodeList)
      ensures Registered(graph.nodeList) && Topology(graph.nodeList) == topo
      ensures Rounds.AllInitialized(States(graph.nodeList)) && Rounds.Ready(topo, States(graph.nodeList))
      ensures Rounds.RunLoop(c + 1, topo, States(graph.nodeList), isConverged) == Rounds.RunLoop(c, topo, cur, false)
    {
      Rounds.StepReady(topo, cur);
      Rounds.RunLoopUnfold(c, topo, cur);
      var r := Step();
      isConverged := r.value;
    }

    /** The loop of `run_simulation` from count `c` on ready nodes: steps while the count
        is below 100 and the last step did not converge; the count it stops at. */
    method RunSteps(c: int) returns (c': int)
      requires Registered(graph.nodeList)
      requires Rounds.AllInitialized(States(graph.nodeList)) && Rounds.Ready(Topology(graph.nodeList), States(graph.nodeList))
      modifies Engines(graph.nodeList)
      ensures (c', States(graph.nodeList)) ==
        var r := Rounds.RunLoop(c, old(Topology(graph.nodeList)), old(States(graph.nodeList)), false); (r.0, r.1)
    {
      var nodes := graph.nodeList;
      ghost var topo := Topology(nodes);
      ghost var s0 := States(nodes);
      var isConverged := false;
      c' := c;
      while c' < 100 && !isConverged
        invariant Registered(nodes) && Topology(nodes) == topo
        invariant Rounds.AllInitialized(States(nodes)) && Rounds.Ready(topo, States(nodes))
        invariant Rounds.RunLoop(c', topo, States(nodes), isConverged) == Rounds.RunLoop(c, topo, s0, false)
        decreases 100 - c'
      {
        isConverged := StepFlag(c', topo, States(nodes));
        c' := c' + 1;
      }
    }

    /** The counter of `run_simulation` is stored; the engines are not touched. */
    method SetCount(c: int)
      modifies this
      ensures count == c && States(graph.nodeList) == old(States(graph.nodeList))
    {
      count := c;
    }

    /** `run_simulation`: nothing when some node is not initialized; otherwise steps,
        each counted, while the count is below 100 and the last step did not converge. */
    method RunSimulation()
      requires Registered(graph.nodeList)
      requires Rounds.AllInitialized(States(graph.nodeList)) ==> Rounds.Ready(Topology(graph.nodeList), States(graph.nodeList))
      modifies this, Engines(graph.nodeList)
      ensures (count, States(graph.nodeList)) == Rounds.Run(old(count), old(Topology(graph.nodeList)), old(States(graph.nodeList)))
    {
      ghost var topo := Topology(graph.nodeList);
      ghost var s0 := States(graph.nodeList);
      var initialized := EveryInitialized(graph.nodeList);
      if !initialized {
        return;
      }
      assert Topology(graph.nodeList) == topo;
      assert States(graph.nodeList) == s0;
      assert Rounds.AllInitialized(s0);
      var c := RunSteps(count);
      assert (c, States(graph.nodeList)) == (Rounds.RunLoop(old(count), topo, s0, false).0, Rounds.RunLoop(old(count), topo, s0, false).1);
      SetCount(c);
    }
  }
}
