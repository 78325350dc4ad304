/**
 * The meaning of one node's distance-vector engine (`DVR` in DVR_module.py), on values.
 * A table cell is an optional integer (Python's `None` is `Option.None`); rows and
 * tables are sequences. `EngineState` collects the fields of one `DVR` object, and
 * `Links` what the node's own edges tell it about each node of `node_list`.
 * The methods of class `Dvr` in module Simulation are proved to compute exactly these
 * functions.
 */
module Routing {
  import opened Wrappers
  import Seqs

  type Cell = Option<int>
  type Row = seq<Cell>
  type Table = seq<Row>

  /** The fixed cost that replaces a route whose provider learned it from us. */
  const Penalty: int := 999999

  predicate Square(t: Table, n: nat)
  {
    |t| == n && forall r :: 0 <= r < n ==> |t[r]| == n
  }

  /** `[None for i in range(n)]`. */
  function Unknown(n: nat): (r: Row)
    ensures |r| == n && forall j :: 0 <= j < n ==> r[j] == None
  {
    seq(n, _ => None)
  }

  /** The fields of one `DVR` object (`is_converged` is never read and is left out). */
  datatype EngineState = EngineState(
    nodeIndex: Option<int>,
    neighborIndex: seq<Option<int>>,
    nodeTable: Table,
    tempTable: Table,
    learnTable: seq<Cell>,
    isInitialized: bool)

  /** What a node knows of itself and its edges, one entry per position of `node_list`:
      whether that entry is the node itself, whether it is in `neighbor_nodes`, and
      `get_edge_cost_between` to it; and the node indices of `neighbor_nodes` in their
      own order. */
  datatype Links = Links(isSelf: seq<bool>, isNeighbor: seq<bool>, cost: seq<Cell>, neighborIndex: seq<Option<int>>)

  // ---------------------------------------------------------------- compute_min

  predicate IsFirstMin(values: seq<int>, k: int)
  {
    0 <= k < |values| &&
    (forall j :: 0 <= j < |values| ==> values[k] <= values[j]) &&
    (forall j :: 0 <= j < k ==> values[j] > values[k])
  }

  /** The position of the first smallest value. */
  function FirstMinPos(values: seq<int>): (k: nat)
    requires |values| > 0
    ensures IsFirstMin(values, k)
  {
    if |values| == 1 then 0
    else
      var k := FirstMinPos(values[..|values| - 1]);
      if values[|values| - 1] < values[k] then |values| - 1 else k
  }

  lemma FirstMinUnique(values: seq<int>, k: int, k': int)
    requires IsFirstMin(values, k) && IsFirstMin(values, k')
    ensures k == k'
  {
    assert values[k] <= values[k'] && values[k'] <= values[k];
  }

  /** Python's `min` on a non-empty list. */
  function MinOf(a: seq<int>): (m: int)
    requires |a| > 0
    ensures m in a && forall x :: x in a ==> m <= x
  {
    if |a| == 1 then a[0]
    else
      var m := MinOf(a[1..]);
      assert forall x :: x in a[1..] ==> x in a;
      assert forall x :: x in a ==> x == a[0] || x in a[1..];
      if a[0] <= m then a[0] else m
  }

  /** `compute_min`: `min` of the costs, then the index paired with its first
      occurrence; the bare `except` turns an empty list (or a missing index) into
      `(None, None)`. */
  function ComputeMin(values: seq<int>, indices: seq<int>): (r: (Cell, Cell))
    ensures values == [] ==> r == (None, None)
    ensures values != [] ==>
      var k := FirstMinPos(values);
      r == if k < |indices| then (Some(values[k]), Some(indices[k])) else (None, None)
  {
    if values == [] then (None, None)
    else
      var m := MinOf(values);
      var k := Seqs.IndexOf(values, m);
      assert forall j :: 0 <= j < |values| ==> values[j] in values;
      assert IsFirstMin(values, k);
      FirstMinUnique(values, k, FirstMinPos(values));
      if k < |indices| then (Some(m), Some(indices[k])) else (None, None)
  }

  /** Appending one candidate: it wins only when it is strictly cheaper than every
      earlier one, so ties keep the earlier candidate. */
  lemma ComputeMinSnoc(values: seq<int>, indices: seq<int>, x: int, w: int)
    requires |values| == |indices|
    ensures ComputeMin(values + [x], indices + [w]) ==
      if values == [] || x < ComputeMin(values, indices).0.value then (Some(x), Some(w))
      else ComputeMin(values, indices)
  {
    var vs := values + [x];
    if values != [] {
      var k := FirstMinPos(values);
      if x < values[k] {
        assert IsFirstMin(vs, |values|);
        FirstMinUnique(vs, |values|, FirstMinPos(vs));
      } else {
        assert IsFirstMin(vs, k);
        FirstMinUnique(vs, k, FirstMinPos(vs));
      }
    } else {
      assert IsFirstMin(vs, 0);
      FirstMinUnique(vs, 0, FirstMinPos(vs));
    }
  }

  // ---------------------------------------------------------------- candidates

  /** The tables of a node that a neighbour reads: n rows of n cells, and a learn
      table of at least n entries. */
  predicate Readable(e: EngineState, n: nat)
  {
    Square(e.nodeTable, n) && |e.learnTable| >= n
  }

  /** What `calculate_distance_vector` of node `self` needs in order not to raise:
      its own tables and those of every neighbour are readable, and every neighbour
      has an edge cost. */
  predicate Prepared(self: nat, links: Links, states: seq<EngineState>)
  {
    self < |states| &&
    |links.isNeighbor| == |states| && |links.cost| == |states| &&
    Readable(states[self], |states|) &&
    forall m :: 0 <= m < |states| && links.isNeighbor[m] ==>
      links.cost[m].Some? && Readable(states[m], |states|)
  }

  /** A candidate `(cost, via)`: one entry of `temp_DV[i]` with its `temp_index_DV[i]`. */
  datatype Candidate = Candidate(cost: int, via: int)

  /** What neighbour `m`, advertising row `advertised` with `learn_table` `learn` over an
      edge of cost `c`, contributes for destination `d`: `(0, d)` for the node's own
      column; none when `m` advertises no distance to `d`; `Penalty + c` when `m` learned
      its route to `d` from us; otherwise the advertised distance plus `c`. */
  function NeighborOffer(self: nat, d: nat, m: nat, advertised: Row, learn: seq<Cell>, c: int): (r: Option<Candidate>)
    requires d < |advertised| && d < |learn|
    ensures r.None? <==> d != self && advertised[d].None?
    ensures r.Some? ==> r.value.via == if d == self then d else m
    ensures r.Some? && d != self ==>
      r.value.cost == (if learn[d] == Some(self) then Penalty else advertised[d].value) + c
  {
    if d == self then Some(Candidate(0, d))
    else match advertised[d]
      case None => None
      case Some(distance) =>
        if learn[d] == Some(self) then Some(Candidate(Penalty + c, m))
        else Some(Candidate(distance + c, m))
  }

  /** The candidate that node `m` of `node_list` contributes for destination `d`: none
      unless `m` is a neighbour, and otherwise its `NeighborOffer` over its own row. */
  function Offer(self: nat, d: nat, m: nat, links: Links, states: seq<EngineState>): (r: Option<Candidate>)
    requires Prepared(self, links, states) && d < |states| && m < |states|
    ensures r.None? <==> !links.isNeighbor[m] || (d != self && states[m].nodeTable[m][d].None?)
    ensures r.Some? && d != self ==> r.value.via == m
  {
    if !links.isNeighbor[m] then None
    else NeighborOffer(self, d, m, states[m].nodeTable[m], states[m].learnTable, links.cost[m].value)
  }

  /** The offers of all nodes of `node_list` for destination `d`, in that order. */
  function Offers(self: nat, d: nat, links: Links, states: seq<EngineState>): (r: seq<Option<Candidate>>)
    requires Prepared(self, links, states) && d < |states|
    ensures |r| == |states| && forall m :: 0 <= m < |states| ==> r[m] == Offer(self, d, m, links, states)
  {
    seq(|states|, m requires 0 <= m < |states| => Offer(self, d, m, links, states))
  }

  /** The candidate list `temp_DV[i]`/`temp_index_DV[i]`: the offers made, in order. */
  function Gather(offers: seq<Option<Candidate>>): seq<Candidate>
  {
    if offers == [] then []
    else
      var o := offers[|offers| - 1];
      Gather(offers[..|offers| - 1]) + if o.Some? then [o.value] else []
  }

  function Costs(c: seq<Candidate>): (r: seq<int>)
    ensures |r| == |c| && forall i :: 0 <= i < |c| ==> r[i] == c[i].cost
  {
    seq(|c|, i requires 0 <= i < |c| => c[i].cost)
  }

  function Vias(c: seq<Candidate>): (r: seq<int>)
    ensures |r| == |c| && forall i :: 0 <= i < |c| ==> r[i] == c[i].via
  {
    seq(|c|, i requires 0 <= i < |c| => c[i].via)
  }

  /** The route chosen from a list of offers: `compute_min` over the gathered candidates. */
  function Choose(offers: seq<Option<Candidate>>): (r: (Cell, Cell))
    ensures r.0.Some? <==> r.1.Some?
    ensures r.0.None? <==> forall j :: 0 <= j < |offers| ==> offers[j].None?
  {
    GatherEmpty(offers);
    var c := Gather(offers);
    ComputeMin(Costs(c), Vias(c))
  }

  /** The new self-row value and `learn_table` entry for destination `d`. */
  function Route(self: nat, d: nat, links: Links, states: seq<EngineState>): (r: (Cell, Cell))
    requires Prepared(self, links, states) && d < |states|
    ensures r.0.Some? <==> r.1.Some?
    ensures r.0.None? <==> forall m :: 0 <= m < |states| ==> Offer(self, d, m, links, states).None?
  {
    Choose(Offers(self, d, links, states))
  }

  /** Offer `m` is a cheapest one and every earlier offer is dearer. */
  predicate IsFirstBest(offers: seq<Option<Candidate>>, m: int)
  {
    0 <= m < |offers| && offers[m].Some? &&
    (forall j :: 0 <= j < |offers| && offers[j].Some? ==> offers[m].value.cost <= offers[j].value.cost) &&
    (forall j :: 0 <= j < m && offers[j].Some? ==> offers[j].value.cost > offers[m].value.cost)
  }

  lemma FirstBestUnique(offers: seq<Option<Candidate>>, m: int, m': int)
    requires IsFirstBest(offers, m) && IsFirstBest(offers, m')
    ensures m == m'
  {
    assert offers[m].value.cost <= offers[m'].value.cost && offers[m'].value.cost <= offers[m].value.cost;
  }

  /** The position of the first cheapest offer, if any offer was made. */
  function BestOf(offers: seq<Option<Candidate>>): (b: Option<nat>)
    ensures b.None? <==> forall j :: 0 <= j < |offers| ==> offers[j].None?
    ensures b.Some? ==> IsFirstBest(offers, b.value)
  {
    if offers == [] then None
    else
      var front := offers[..|offers| - 1];
      var o := offers[|offers| - 1];
      var b := BestOf(front);
      assert forall j :: 0 <= j < |front| ==> front[j] == offers[j];
      if o.None? then b
      else if b.None? || o.value.cost < front[b.value].value.cost then Some(|offers| - 1)
      else b
  }

  lemma {:induction false} GatherEmpty(offers: seq<Option<Candidate>>)
    ensures Gather(offers) == [] <==> forall j :: 0 <= j < |offers| ==> offers[j].None?
  {
    if offers != [] {
      var front := offers[..|offers| - 1];
      GatherEmpty(front);
      assert forall j :: 0 <= j < |front| ==> front[j] == offers[j];
    }
  }

  /** Gathering one more offer of a list appends its candidate, if it made one. */
  lemma GatherPrefix(offers: seq<Option<Candidate>>, m: nat)
    requires m < |offers|
    ensures Gather(offers[..m + 1]) ==
      Gather(offers[..m]) + if offers[m].Some? then [offers[m].value] else []
  {
    assert offers[..m + 1][..m] == offers[..m];
  }

  lemma CostsVias(c: seq<Candidate>, extra: seq<Candidate>)
    ensures Costs(c + extra) == Costs(c) + Costs(extra) && Vias(c + extra) == Vias(c) + Vias(extra)
  {
  }

  /** The candidate lists after one more node of `node_list`. */
  lemma GatherStep(offers: seq<Option<Candidate>>, m: nat)
    requires m < |offers|
    ensures Costs(Gather(offers[..m + 1])) ==
      Costs(Gather(offers[..m])) + if offers[m].Some? then [offers[m].value.cost] else []
    ensures Vias(Gather(offers[..m + 1])) ==
      Vias(Gather(offers[..m])) + if offers[m].Some? then [offers[m].value.via] else []
  {
    GatherPrefix(offers, m);
    CostsVias(Gather(offers[..m]), if offers[m].Some? then [offers[m].value] else []);
  }

  /** One more offer changes the choice only when it is strictly cheaper. */
  lemma ChooseSnoc(front: seq<Option<Candidate>>, c: Candidate)
    ensures Choose(front + [Some(c)]) ==
      if Gather(front) == [] || c.cost < Choose(front).0.value then (Some(c.cost), Some(c.via))
      else Choose(front)
  {
    var offers := front + [Some(c)];
    assert offers[..|offers| - 1] == front;
    var prev := Gather(front);
    assert Gather(offers) == prev + [c];
    assert Costs(prev + [c]) == Costs(prev) + [c.cost];
    assert Vias(prev + [c]) == Vias(prev) + [c.via];
    ComputeMinSnoc(Costs(prev), Vias(prev), c.cost, c.via);
  }

  /** `Choose` is the first cheapest offer, or `(None, None)` without offers. */
  lemma {:induction false} ChooseBest(offers: seq<Option<Candidate>>)
    ensures Choose(offers) == match BestOf(offers)
      case None => (None, None)
      case Some(m) => (Some(offers[m].value.cost), Some(offers[m].value.via))
  {
    if offers != [] {
      var front := offers[..|offers| - 1];
      var o := offers[|offers| - 1];
      assert offers == front + [o];
      ChooseBest(front);
      assert forall j :: 0 <= j < |front| ==> front[j] == offers[j];
      if o.Some? {
        ChooseSnoc(front, o.value);
        GatherEmpty(front);
      } else {
        assert Gather(offers) == Gather(front);
      }
    }
  }

  /** `compute_min` over the gathered candidates picks the first cheapest offer, and
      gives `(None, None)` exactly when no offer was made. */
  lemma ChooseIsFirstBest(offers: seq<Option<Candidate>>)
    ensures Choose(offers) == (None, None) <==> forall j :: 0 <= j < |offers| ==> offers[j].None?
    ensures forall m :: IsFirstBest(offers, m) ==>
      Choose(offers) == (Some(offers[m].value.cost), Some(offers[m].value.via))
  {
    ChooseBest(offers);
    forall m | IsFirstBest(offers, m)
      ensures Choose(offers) == (Some(offers[m].value.cost), Some(offers[m].value.via))
    {
      FirstBestUnique(offers, m, BestOf(offers).value);
    }
  }

  /** For a destination other than the node itself: no route exactly when no neighbour
      advertises a distance to it; a distance is chosen exactly when a next hop is;
      otherwise the route goes through a neighbour that
      advertises one, at that neighbour's offer, which is no dearer than any other
      neighbour's and strictly cheaper than those of all neighbours before it. */
  lemma RouteFirstBest(self: nat, d: nat, links: Links, states: seq<EngineState>)
    requires Prepared(self, links, states) && d < |states| && d != self
    ensures Route(self, d, links, states) == (None, None) <==>
      forall m :: 0 <= m < |states| && links.isNeighbor[m] ==> states[m].nodeTable[m][d].None?
    ensures Route(self, d, links, states).1.Some? <==> Route(self, d, links, states).0.Some?
    ensures Route(self, d, links, states).1.Some? ==>
      var v := Route(self, d, links, states).1.value;
      0 <= v < |states| && links.isNeighbor[v] && states[v].nodeTable[v][d].Some? &&
      var o := Offer(self, d, v, links, states).value;
      Route(self, d, links, states).0 == Some(o.cost) &&
      (forall m :: 0 <= m < |states| && links.isNeighbor[m] && states[m].nodeTable[m][d].Some? ==>
        o.cost <= Offer(self, d, m, links, states).value.cost) &&
      (forall m :: 0 <= m < v && links.isNeighbor[m] && states[m].nodeTable[m][d].Some? ==>
        o.cost < Offer(self, d, m, links, states).value.cost)
  {
    var offers := Offers(self, d, links, states);
    ChooseBest(offers);
    var b := BestOf(offers);
    if b.Some? {
      var v := b.value;
      assert offers[v].value.via == v;
      forall m | 0 <= m < |states| && links.isNeighbor[m] && states[m].nodeTable[m][d].Some?
        ensures offers[v].value.cost <= Offer(self, d, m, links, states).value.cost
      {
        assert offers[m].Some?;
      }
      forall m | 0 <= m < v && links.isNeighbor[m] && states[m].nodeTable[m][d].Some?
        ensures offers[v].value.cost < Offer(self, d, m, links, states).value.cost
      {
        assert offers[m].Some?;
      }
    } else {
      forall m | 0 <= m < |states| && links.isNeighbor[m]
        ensures states[m].nodeTable[m][d].None?
      {
        assert offers[m].None?;
      }
    }
  }

  /** The node's own column: distance 0 learned from itself when it has a neighbour in
      `node_list`, since every neighbour contributes the candidate `(0, self)`; and no
      route at all for a node without neighbours. */
  lemma SelfRoute(self: nat, links: Links, states: seq<EngineState>)
    requires Prepared(self, links, states)
    ensures Route(self, self, links, states) ==
      if exists m :: 0 <= m < |states| && links.isNeighbor[m] then (Some(0), Some(self)) else (None, None)
  {
    var offers := Offers(self, self, links, states);
    ChooseBest(offers);
    var b := BestOf(offers);
    if b.Some? {
      assert links.isNeighbor[b.value];
    } else {
      forall m | 0 <= m < |states| ensures !links.isNeighbor[m] {
        assert offers[m].None?;
      }
    }
  }

  // ---------------------------------------------------------------- one round of one node

  /** The node's new own row: the chosen cost for every destination. */
  function NewRow(self: nat, links: Links, states: seq<EngineState>): (r: Row)
    requires Prepared(self, links, states)
    ensures |r| == |states|
  {
    seq(|states|, d requires 0 <= d < |states| => Route(self, d, links, states).0)
  }

  /** The new `learn_table`: the chosen next hop for every destination of `node_list`;
      entries beyond them are kept. */
  function NewLearn(self: nat, links: Links, states: seq<EngineState>): (r: seq<Cell>)
    requires Prepared(self, links, states)
    ensures |r| == |states[self].learnTable|
  {
    var l := states[self].learnTable;
    seq(|l|, i requires 0 <= i < |l| => if i < |states| then Route(self, i, links, states).1 else l[i])
  }

  /** The table after the refresh: a neighbour's row becomes that neighbour's own
      (committed) row, the node's own row is kept, every other row is all `None`. */
  function Refreshed(self: nat, links: Links, states: seq<EngineState>): (t: Table)
    requires Prepared(self, links, states)
    ensures Square(t, |states|)
  {
    seq(|states|, m requires 0 <= m < |states| =>
      if links.isNeighbor[m] then states[m].nodeTable[m]
      else if m == self then states[self].nodeTable[self]
      else Unknown(|states|))
  }

  /** The rows below `m` are refreshed, the others are still the cached ones. */
  predicate RefreshedUpTo(self: nat, links: Links, states: seq<EngineState>, table: Table, m: nat)
    requires Prepared(self, links, states)
  {
    |table| == |states| &&
    forall row :: 0 <= row < |states| ==>
      table[row] == if row < m then Refreshed(self, links, states)[row] else states[self].nodeTable[row]
  }

  lemma RefreshNext(self: nat, links: Links, states: seq<EngineState>, table: Table, m: nat)
    requires Prepared(self, links, states) && m < |states| && RefreshedUpTo(self, links, states, table, m)
    ensures RefreshedUpTo(self, links, states, table[m := Refreshed(self, links, states)[m]], m + 1)
  {
  }

  /** Every destination's candidate lists hold the offers of the nodes below `m`. */
  predicate CollectedUpTo(self: nat, links: Links, states: seq<EngineState>, dv: seq<seq<int>>, via: seq<seq<int>>, m: nat)
    requires Prepared(self, links, states) && m <= |states|
  {
    |dv| == |states| && |via| == |states| &&
    forall d :: 0 <= d < |states| ==>
      dv[d] == Costs(Gather(Offers(self, d, links, states)[..m])) &&
      via[d] == Vias(Gather(Offers(self, d, links, states)[..m]))
  }

  /** Before the first node: no row refreshed, every candidate list empty. */
  lemma StartUpTo(self: nat, links: Links, states: seq<EngineState>)
    requires Prepared(self, links, states)
    ensures RefreshedUpTo(self, links, states, states[self].nodeTable, 0)
    ensures CollectedUpTo(self, links, states, seq(|states|, _ => []), seq(|states|, _ => []), 0)
  {
    forall d | 0 <= d < |states|
      ensures Offers(self, d, links, states)[..0] == []
    {
    }
  }

  lemma CollectNext(self: nat, links: Links, states: seq<EngineState>,
                    dv: seq<seq<int>>, via: seq<seq<int>>, dv': seq<seq<int>>, via': seq<seq<int>>, m: nat)
    requires Prepared(self, links, states) && m < |states| && CollectedUpTo(self, links, states, dv, via, m)
    requires |dv'| == |states| && |via'| == |states|
    requires forall d :: 0 <= d < |states| ==>
      var o := Offer(self, d, m, links, states);
      dv'[d] == dv[d] + (if o.Some? then [o.value.cost] else []) &&
      via'[d] == via[d] + (if o.Some? then [o.value.via] else [])
    ensures CollectedUpTo(self, links, states, dv', via', m + 1)
  {
    forall d | 0 <= d < |states|
      ensures dv'[d] == Costs(Gather(Offers(self, d, links, states)[..m + 1]))
      ensures via'[d] == Vias(Gather(Offers(self, d, links, states)[..m + 1]))
    {
      GatherStep(Offers(self, d, links, states), m);
    }
  }

  /** Once every node has been visited, the candidate lists are those `Route` chooses from. */
  lemma CollectedAll(self: nat, links: Links, states: seq<EngineState>, dv: seq<seq<int>>, via: seq<seq<int>>)
    requires Prepared(self, links, states) && CollectedUpTo(self, links, states, dv, via, |states|)
    ensures forall d :: 0 <= d < |states| ==> ComputeMin(dv[d], via[d]) == Route(self, d, links, states)
  {
    assert forall d :: 0 <= d < |states| ==> Offers(self, d, links, states)[..|states|] == Offers(self, d, links, states);
  }

  /** The destinations below `i` have their route chosen: into the own row of `temp`,
      a copy of the cached table, and into `learn`. */
  predicate ChosenUpTo(self: nat, links: Links, states: seq<EngineState>, temp: Table, learn: seq<Cell>, i: nat)
    requires Prepared(self, links, states)
  {
    var e := states[self];
    |temp| == |states| && |temp[self]| == |states| && |learn| == |e.learnTable| &&
    (forall row :: 0 <= row < |states| && row != self ==> temp[row] == e.nodeTable[row]) &&
    (forall j :: 0 <= j < |states| ==> temp[self][j] == if j < i then NewRow(self, links, states)[j] else e.nodeTable[self][j]) &&
    (forall j :: 0 <= j < |learn| ==> learn[j] == if j < i then NewLearn(self, links, states)[j] else e.learnTable[j])
  }

  lemma ChooseNext(self: nat, links: Links, states: seq<EngineState>, temp: Table, learn: seq<Cell>, i: nat)
    requires Prepared(self, links, states) && i < |states| && ChosenUpTo(self, links, states, temp, learn, i)
    ensures ChosenUpTo(self, links, states, temp[self := temp[self][i := NewRow(self, links, states)[i]]],
                       learn[i := NewLearn(self, links, states)[i]], i + 1)
  {
  }

  lemma ChosenAll(self: nat, links: Links, states: seq<EngineState>, temp: Table, learn: seq<Cell>)
    requires Prepared(self, links, states) && ChosenUpTo(self, links, states, temp, learn, |states|)
    ensures temp == states[self].nodeTable[self := NewRow(self, links, states)]
    ensures learn == NewLearn(self, links, states)
  {
    assert temp[self] == NewRow(self, links, states);
  }

  /** Some cell of `a` differs from the cell at the same place of `b` (`is_DV_changed`). */
  predicate Differs(a: Table, b: Table)
  {
    exists i, j :: 0 <= i < |a| && 0 <= j < |a[i]| && i < |b| && j < |b[i]| && a[i][j] != b[i][j]
  }

  /** On tables of the same shape, a differing cell is the same as a different table. */
  lemma DiffersIff(a: Table, b: Table, n: nat)
    requires Square(a, n) && Square(b, n)
    ensures Differs(a, b) <==> a != b
  {
    if a != b {
      var i :| 0 <= i < n && a[i] != b[i];
      var j :| 0 <= j < n && a[i][j] != b[i][j];
    }
  }

  /** `calculate_distance_vector` of an initialized node `self`: the neighbour indices
      are refreshed, the table is refreshed, `temp_table` is the old table with the new
      own row, `learn_table` holds the chosen next hops; and the flag `is_DV_changed`. */
  function Calc(self: nat, links: Links, states: seq<EngineState>): (r: (EngineState, bool))
    requires Prepared(self, links, states)
    ensures r.1 <==> r.0.nodeTable != r.0.tempTable
    ensures |r.0.nodeTable| == |states| && r.0.nodeTable[self] == states[self].nodeTable[self]
    ensures r.0.nodeIndex == states[self].nodeIndex && r.0.isInitialized == states[self].isInitialized
  {
    var e := states[self];
    var table := Refreshed(self, links, states);
    var temp := e.nodeTable[self := NewRow(self, links, states)];
    DiffersIff(table, temp, |states|);
    (e.(neighborIndex := links.neighborIndex, nodeTable := table, tempTable := temp,
        learnTable := NewLearn(self, links, states)),
     Differs(table, temp))
  }

  /** The round of a node, given its refreshed table, its new `temp_table` and
      `learn_table` and its flag as the engine computes them step by step. */
  lemma CalcIs(self: nat, links: Links, states: seq<EngineState>, e: EngineState,
               table: Table, temp: Table, learn: seq<Cell>, flag: bool)
    requires Prepared(self, links, states) && RefreshedUpTo(self, links, states, table, |states|)
    requires temp == states[self].nodeTable[self := NewRow(self, links, states)]
    requires learn == NewLearn(self, links, states) && flag == Differs(table, temp)
    requires e == states[self].(neighborIndex := links.neighborIndex, nodeTable := table, tempTable := temp, learnTable := learn)
    ensures Calc(self, links, states) == (e, flag)
  {
    assert table == Refreshed(self, links, states);
  }

  /** `update_distance_vector`: the own row of `temp_table` is committed. */
  function Commit(e: EngineState): (r: EngineState)
    requires e.nodeIndex.Some? && 0 <= e.nodeIndex.value < |e.nodeTable| && e.nodeIndex.value < |e.tempTable|
    ensures |r.nodeTable| == |e.nodeTable| && r == e.(nodeTable := r.nodeTable)
    ensures r.nodeTable[e.nodeIndex.value] == e.tempTable[e.nodeIndex.value]
    ensures forall i :: 0 <= i < |e.nodeTable| && i != e.nodeIndex.value ==> r.nodeTable[i] == e.nodeTable[i]
  {
    var i := e.nodeIndex.value;
    e.(nodeTable := e.nodeTable[i := e.tempTable[i]])
  }

  /** A round keeps every table readable: the refreshed table and `temp_table` are
      n by n, `learn_table` keeps its length, and the own row is left alone until the
      commit. */
  lemma CalcShape(self: nat, links: Links, states: seq<EngineState>)
    requires Prepared(self, links, states)
    ensures var e' := Calc(self, links, states).0;
      Readable(e', |states|) && Square(e'.tempTable, |states|) &&
      |e'.learnTable| == |states[self].learnTable| &&
      e'.nodeTable[self] == states[self].nodeTable[self] &&
      e'.nodeIndex == states[self].nodeIndex && e'.isInitialized == states[self].isInitialized
  {
  }

  /** The changed flag covers the whole table: it is set when a refreshed row of another
      node differs from the cached one, or when the new own row differs from the old. */
  lemma ChangedScope(self: nat, links: Links, states: seq<EngineState>)
    requires Prepared(self, links, states)
    ensures Calc(self, links, states).1 <==>
      (exists m :: 0 <= m < |states| && m != self &&
        Refreshed(self, links, states)[m] != states[self].nodeTable[m]) ||
      NewRow(self, links, states) != states[self].nodeTable[self]
  {
    var table := Refreshed(self, links, states);
    var row := NewRow(self, links, states);
    RowChangeScope(table, states[self].nodeTable, self, row, |states|);
  }

  /** Two tables that agree on row `self` differ after replacing that row of the second
      exactly when another row differs or the replacement differs. */
  lemma RowChangeScope(table: Table, old_: Table, self: nat, row: Row, n: nat)
    requires Square(table, n) && Square(old_, n) && self < n && |row| == n && table[self] == old_[self]
    ensures Differs(table, old_[self := row]) <==>
      (exists m :: 0 <= m < n && m != self && table[m] != old_[m]) || row != old_[self]
  {
    var temp := old_[self := row];
    DiffersIff(table, temp, n);
    if table != temp {
      var m :| 0 <= m < n && table[m] != temp[m];
      assert m == self || table[m] != old_[m];
    }
  }

  /** Committed after the round, the table differs from the table before the round
      exactly when the round reported a change. */
  lemma ChangedIffCommittedDiffers(self: nat, links: Links, states: seq<EngineState>)
    requires Prepared(self, links, states) && states[self].nodeIndex == Some(self)
    ensures var e' := Calc(self, links, states).0;
      Commit(e').nodeTable == Refreshed(self, links, states)[self := NewRow(self, links, states)] &&
      (Calc(self, links, states).1 <==> Commit(e').nodeTable != states[self].nodeTable)
  {
    var n := |states|;
    var old_ := states[self].nodeTable;
    var table := Refreshed(self, links, states);
    var row := NewRow(self, links, states);
    ChangedScope(self, links, states);
    var committed := table[self := row];
    if committed != old_ {
      var m :| 0 <= m < n && committed[m] != old_[m];
      assert m == self || table[m] != old_[m];
    }
    if committed == old_ {
      assert committed[self] == row;
      assert forall m :: 0 <= m < n && m != self ==> committed[m] == table[m];
    }
  }

  /** A node without neighbours loses even the route to itself: its first round after
      initialization (own cell 0) reports a change, so it never converges alone. */
  lemma IsolatedNodeChanges(self: nat, links: Links, states: seq<EngineState>)
    requires Prepared(self, links, states)
    requires forall m :: 0 <= m < |states| ==> !links.isNeighbor[m]
    requires states[self].nodeTable[self][self] == Some(0)
    ensures NewRow(self, links, states)[self] == None
    ensures Calc(self, links, states).1
  {
    SelfRoute(self, links, states);
    ChangedScope(self, links, states);
  }

  predicate NonNegativeRow(r: Row)
  {
    forall j :: 0 <= j < |r| && r[j].Some? ==> r[j].value >= 0
  }

  /** With non-negative edge costs and non-negative advertised distances, every chosen
      distance is non-negative. */
  lemma NewRowNonNegative(self: nat, links: Links, states: seq<EngineState>)
    requires Prepared(self, links, states)
    requires forall m :: 0 <= m < |states| && links.isNeighbor[m] ==>
      links.cost[m].value >= 0 && NonNegativeRow(states[m].nodeTable[m])
    ensures NonNegativeRow(NewRow(self, links, states))
  {
    forall d | 0 <= d < |states| && NewRow(self, links, states)[d].Some?
      ensures NewRow(self, links, states)[d].value >= 0
    {
      if d == self {
        SelfRoute(self, links, states);
      } else {
        RouteFirstBest(self, d, links, states);
      }
    }
  }

  // ---------------------------------------------------------------- initialization

  /** `learn_table[index] = index` for every index of the list, in order. */
  function MarkAll(l: seq<Cell>, idx: seq<Option<int>>): (r: seq<Cell>)
    requires forall k :: 0 <= k < |idx| ==> idx[k].Some? && 0 <= idx[k].value < |l|
    ensures |r| == |l|
    decreases |idx|
  {
    if idx == [] then l
    else MarkAll(l[idx[0].value := idx[0]], idx[1..])
  }

  /** The entries of `learn_table` after the marks: an entry names itself when it was
      marked, and is unchanged otherwise. */
  lemma {:induction false} MarkAllAt(l: seq<Cell>, idx: seq<Option<int>>)
    requires forall k :: 0 <= k < |idx| ==> idx[k].Some? && 0 <= idx[k].value < |l|
    ensures forall i :: 0 <= i < |l| ==>
      MarkAll(l, idx)[i] == if Some(i) in idx then Some(i) else l[i]
    decreases |idx|
  {
    if idx != [] {
      var l' := l[idx[0].value := idx[0]];
      MarkAllAt(l', idx[1..]);
      forall i | 0 <= i < |l|
        ensures MarkAll(l, idx)[i] == if Some(i) in idx then Some(i) else l[i]
      {
        assert Some(i) in idx <==> Some(i) == idx[0] || Some(i) in idx[1..] by {
          assert idx == [idx[0]] + idx[1..];
        }
      }
    }
  }

  /** `[0, 0, ...]`, the `n` entries `initialize_node_table` appends to `learn_table`. */
  function Zeros(n: nat): (r: seq<Cell>)
    ensures |r| == n && forall i :: 0 <= i < n ==> r[i] == Some(0)
  {
    seq(n, _ => Some(0))
  }

  /** The table `initialize_node_table` builds: the row of the node itself holds
      `get_edge_cost_between` to every node; every other row is all `None`. */
  function InitTable(links: Links): (t: Table)
    requires |links.isSelf| == |links.cost|
    ensures Square(t, |links.cost|)
  {
    seq(|links.cost|, i requires 0 <= i < |links.cost| =>
      if links.isSelf[i] then links.cost else Unknown(|links.cost|))
  }

  /** Whether an index is usable for `learn_table` of length `len`. */
  predicate IndexIn(i: Option<int>, len: int)
  {
    i.Some? && 0 <= i.value < len
  }

  /** What `initialize_node_table` needs in order not to raise: the node has an index
      and so does every neighbour, each within the extended `learn_table`. */
  predicate CanInit(e: EngineState, selfIndex: Option<int>, links: Links)
  {
    |links.isSelf| == |links.cost| &&
    IndexIn(selfIndex, |e.learnTable| + |links.cost|) &&
    forall k :: 0 <= k < |links.neighborIndex| ==>
      IndexIn(links.neighborIndex[k], |e.learnTable| + |links.cost|)
  }

  /** `initialize_node_table`: index and neighbour indices read from the node, a fresh
      table, `learn_table` extended by n zeros and then marked for the node itself and for
      each neighbour; `temp_table` is not touched. */
  function Init(e: EngineState, selfIndex: Option<int>, links: Links): (r: EngineState)
    requires CanInit(e, selfIndex, links)
    ensures r.isInitialized && r.nodeIndex == selfIndex && r.neighborIndex == links.neighborIndex
    ensures r.tempTable == e.tempTable && |r.learnTable| == |e.learnTable| + |links.cost|
  {
    var i := selfIndex.value;
    var l := (e.learnTable + Zeros(|links.cost|))[i := selfIndex];
    e.(nodeIndex := selfIndex, neighborIndex := links.neighborIndex, nodeTable := InitTable(links),
       learnTable := MarkAll(l, links.neighborIndex), isInitialized := true)
  }

  /** After initialization the node is initialized and readable, its own row holds the
      direct costs and every other row is all `None`; `learn_table` grew by n entries:
      the node itself and its neighbours name themselves, every other entry keeps its
      earlier value and the new ones are 0. */
  lemma InitFacts(e: EngineState, selfIndex: Option<int>, links: Links)
    requires CanInit(e, selfIndex, links)
    ensures var r := Init(e, selfIndex, links); var n := |links.cost|;
      r.isInitialized && Readable(r, n) && r.nodeIndex == selfIndex &&
      (forall i :: 0 <= i < n ==> r.nodeTable[i] == if links.isSelf[i] then links.cost else Unknown(n)) &&
      |r.learnTable| == |e.learnTable| + n &&
      forall i :: 0 <= i < |r.learnTable| ==>
        r.learnTable[i] ==
          if Some(i) == selfIndex || Some(i) in links.neighborIndex then Some(i)
          else if i < |e.learnTable| then e.learnTable[i]
          else Some(0)
  {
    var i := selfIndex.value;
    var l := (e.learnTable + Zeros(|links.cost|))[i := selfIndex];
    MarkAllAt(l, links.neighborIndex);
  }
}
