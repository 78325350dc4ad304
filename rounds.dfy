/**
 * The meaning of the coordinator's rounds (`NetworkSimulator.step` and
 * `run_simulation` in simulation.py), on values: a list of engine states, one per
 * node of `node_list`, and what each node's edges say (`Links`).
 *
 * The compute phase is a sequential fold over `node_list`: node k's
 * `calculate_distance_vector` overwrites its own `learn_table` at once, so every later
 * node reads this round's `learn_table` of the nodes before it, while the own rows it
 * reads are still the committed ones. Only then are all own rows committed.
 */
module Rounds {
  import opened Wrappers
  import opened Routing

  /** The step limit of `run_simulation`. */
  const MaxSteps: int := 100

  predicate LinksOk(links: Links, n: nat)
  {
    |links.isSelf| == n && |links.isNeighbor| == n && |links.cost| == n &&
    forall m :: 0 <= m < n && links.isNeighbor[m] ==> links.cost[m].Some?
  }

  /** Every engine's tables are readable and it knows its own position in `node_list`. */
  predicate Ready(topo: seq<Links>, states: seq<EngineState>)
  {
    |topo| == |states| &&
    forall k :: 0 <= k < |states| ==>
      LinksOk(topo[k], |states|) && Readable(states[k], |states|) && states[k].nodeIndex == Some(k)
  }

  predicate AllInitialized(states: seq<EngineState>)
  {
    forall k :: 0 <= k < |states| ==> states[k].isInitialized
  }

  lemma ReadyPrepared(topo: seq<Links>, states: seq<EngineState>, k: nat)
    requires Ready(topo, states) && k < |states|
    ensures Prepared(k, topo[k], states)
  {
  }

  /** A round of node k keeps the whole list ready. */
  lemma CalcKeepsReady(topo: seq<Links>, states: seq<EngineState>, k: nat)
    requires Ready(topo, states) && k < |states|
    ensures Prepared(k, topo[k], states) && Ready(topo, states[k := Calc(k, topo[k], states).0])
  {
    CalcShape(k, topo[k], states);
  }

  /** After `generate_graph` every node is initialized and ready for a step, provided
      every node sits at its own index and every neighbour has an edge cost. */
  lemma InitAllReady(topo: seq<Links>, before: seq<EngineState>, after: seq<EngineState>)
    requires |topo| == |before| == |after|
    requires forall k :: 0 <= k < |after| ==>
      LinksOk(topo[k], |after|) && CanInit(before[k], Some(k), topo[k]) && after[k] == Init(before[k], Some(k), topo[k])
    ensures AllInitialized(after) && Ready(topo, after)
  {
    forall k | 0 <= k < |after|
      ensures after[k].isInitialized && Readable(after[k], |after|) && after[k].nodeIndex == Some(k)
    {
      InitFacts(before[k], Some(k), topo[k]);
    }
  }

  /** The compute phase from node k on: each node in turn runs its round on the states
      as the nodes before it left them; the flag records whether any node changed. */
  function ComputeFrom(topo: seq<Links>, states: seq<EngineState>, k: nat, changed: bool): (r: (seq<EngineState>, bool))
    requires Ready(topo, states) && k <= |states|
    ensures |r.0| == |states| && Ready(topo, r.0)
    ensures forall j :: 0 <= j < k ==> r.0[j] == states[j]
    ensures forall j :: 0 <= j < |states| ==> r.0[j].nodeTable[j] == states[j].nodeTable[j]
    ensures forall j :: k <= j < |states| ==> Square(r.0[j].tempTable, |states|)
    ensures forall j :: 0 <= j < |states| ==>
      r.0[j].isInitialized == states[j].isInitialized && |r.0[j].learnTable| == |states[j].learnTable|
    decreases |states| - k
  {
    if k == |states| then (states, changed)
    else
      CalcKeepsReady(topo, states, k);
      CalcShape(k, topo[k], states);
      var (e', c) := Calc(k, topo[k], states);
      ComputeFrom(topo, states[k := e'], k + 1, changed || c)
  }

  /** The states node j reads in the compute phase: those the nodes before it have
      already updated, then its own and the later nodes' states as the round began. */
  function Seen(done: seq<EngineState>, start: seq<EngineState>, j: nat): seq<EngineState>
    requires j <= |done| == |start|
  {
    done[..j] + start[j..]
  }

  lemma SeenReady(topo: seq<Links>, done: seq<EngineState>, start: seq<EngineState>, j: nat)
    requires Ready(topo, done) && Ready(topo, start) && j <= |done| == |start|
    ensures Ready(topo, Seen(done, start, j))
  {
    var s := Seen(done, start, j);
    forall k | 0 <= k < |s|
      ensures Readable(s[k], |s|) && s[k].nodeIndex == Some(k)
    {
      if k < j { assert s[k] == done[k]; } else { assert s[k] == start[k]; }
    }
  }

  /** Node j's state in `result` is its round on what it saw. */
  predicate RoundOf(topo: seq<Links>, result: seq<EngineState>, start: seq<EngineState>, j: nat)
  {
    j < |result| == |start| && Ready(topo, Seen(result, start, j)) &&
    result[j] == Calc(j, topo[j], Seen(result, start, j)).0
  }

  /** Node j's round on what it saw reported a change. */
  predicate ChangedAt(topo: seq<Links>, result: seq<EngineState>, start: seq<EngineState>, j: nat)
  {
    j < |result| == |start| && Ready(topo, Seen(result, start, j)) &&
    Calc(j, topo[j], Seen(result, start, j)).1
  }

  /** One node of the compute phase: the phase from k is node k's round followed by the
      phase from k + 1, and what node j > k sees is the same in both. */
  lemma ComputeFromUnfold(topo: seq<Links>, states: seq<EngineState>, k: nat, changed: bool)
    requires Ready(topo, states) && k < |states|
    ensures Prepared(k, topo[k], states)
    ensures var next := states[k := Calc(k, topo[k], states).0];
      var r := ComputeFrom(topo, states, k, changed);
      Ready(topo, next) &&
      r == ComputeFrom(topo, next, k + 1, changed || Calc(k, topo[k], states).1) &&
      (AllInitialized(states) ==> AllInitialized(next)) &&
      Seen(r.0, states, k) == states &&
      forall j :: k < j < |states| ==> Seen(r.0, states, j) == Seen(r.0, next, j)
  {
    CalcKeepsReady(topo, states, k);
    CalcShape(k, topo[k], states);
    var next := states[k := Calc(k, topo[k], states).0];
    var r := ComputeFrom(topo, states, k, changed);
    assert r.0[..k] == states[..k];
    assert Seen(r.0, states, k) == states[..k] + states[k..] == states;
    forall j | k < j < |states| ensures Seen(r.0, states, j) == Seen(r.0, next, j) {
      assert states[j..] == next[j..];
    }
  }

  /** The compute phase from k over `states` ends where the phase from k + 1 does over
      the states after node k's round, with the flag that round raises. */
  lemma ComputeStep(topo: seq<Links>, states: seq<EngineState>, k: nat, changed: bool, next: seq<EngineState>, changed': bool)
    requires Ready(topo, states) && AllInitialized(states) && k < |states|
    requires next == states[k := Calc(k, topo[k], states).0] && changed' == (changed || Calc(k, topo[k], states).1)
    ensures Ready(topo, next) && AllInitialized(next)
    ensures ComputeFrom(topo, next, k + 1, changed') == ComputeFrom(topo, states, k, changed)
  {
    ComputeFromUnfold(topo, states, k, changed);
  }

  /** The compute phase, declaratively: node j's new state is its round on the states
      the nodes before it have already updated (their fresh `learn_table`s) together
      with the unchanged states of itself and the later nodes. */
  lemma {:induction false} ComputeFromSees(topo: seq<Links>, states: seq<EngineState>, k: nat, changed: bool)
    requires Ready(topo, states) && k <= |states|
    ensures forall j :: k <= j < |states| ==> RoundOf(topo, ComputeFrom(topo, states, k, changed).0, states, j)
    decreases |states| - k
  {
    if k < |states| {
      ComputeFromUnfold(topo, states, k, changed);
      var c := Calc(k, topo[k], states).1;
      var next := states[k := Calc(k, topo[k], states).0];
      var r := ComputeFrom(topo, states, k, changed);
      ComputeFromSees(topo, next, k + 1, changed || c);
      SeenReady(topo, r.0, states, k);
      forall j | k <= j < |states|
        ensures RoundOf(topo, r.0, states, j)
      {
        if j > k {
          assert RoundOf(topo, r.0, next, j);
        }
      }
    }
  }

  /** The compute phase reports a change exactly when some node's round does. */
  lemma {:induction false} ComputeFromChanged(topo: seq<Links>, states: seq<EngineState>, k: nat, changed: bool)
    requires Ready(topo, states) && k <= |states|
    ensures var r := ComputeFrom(topo, states, k, changed);
      r.1 <==> changed || exists j :: k <= j < |states| && ChangedAt(topo, r.0, states, j)
    decreases |states| - k
  {
    if k < |states| {
      ChangedStep(topo, states, k, changed);
      ComputeFromChanged(topo, states[k := Calc(k, topo[k], states).0], k + 1, changed || Calc(k, topo[k], states).1);
    }
  }

  /** Node k's round and the changes reported after it account for the changes reported
      from k on. */
  lemma ChangedStep(topo: seq<Links>, states: seq<EngineState>, k: nat, changed: bool)
    requires Ready(topo, states) && k < |states|
    ensures var c := Calc(k, topo[k], states).1;
      var next := states[k := Calc(k, topo[k], states).0];
      var r := ComputeFrom(topo, states, k, changed);
      Ready(topo, next) && r == ComputeFrom(topo, next, k + 1, changed || c) &&
      ((changed || c || exists j :: k + 1 <= j < |next| && ChangedAt(topo, r.0, next, j)) <==>
       (changed || exists j :: k <= j < |states| && ChangedAt(topo, r.0, states, j)))
  {
    ComputeFromUnfold(topo, states, k, changed);
    var c := Calc(k, topo[k], states).1;
    var next := states[k := Calc(k, topo[k], states).0];
    var r := ComputeFrom(topo, states, k, changed);
    SeenReady(topo, r.0, states, k);
    assert ChangedAt(topo, r.0, states, k) <==> c;
    ChangedLater(topo, r.0, states, next, k);
  }

  /** Past node k, what the nodes see is the same whether the phase is taken from k or
      from k + 1, so they report the same changes. */
  lemma ChangedLater(topo: seq<Links>, result: seq<EngineState>, states: seq<EngineState>, next: seq<EngineState>, k: nat)
    requires k < |states| == |next| == |result|
    requires forall j :: k < j < |states| ==> Seen(result, states, j) == Seen(result, next, j)
    ensures (exists j :: k < j < |states| && ChangedAt(topo, result, states, j)) <==>
            (exists j :: k + 1 <= j < |states| && ChangedAt(topo, result, next, j))
  {
    assert forall j :: k < j < |states| ==> (ChangedAt(topo, result, states, j) <==> ChangedAt(topo, result, next, j));
  }

  /** What `update_distance_vector` needs of every engine: its index is its position and
      both tables have its row. */
  predicate Committable(states: seq<EngineState>)
  {
    forall k :: 0 <= k < |states| ==>
      states[k].nodeIndex == Some(k) && k < |states[k].nodeTable| && k < |states[k].tempTable|
  }

  /** `update_distance_vector` of every node. */
  function CommitAll(states: seq<EngineState>): (r: seq<EngineState>)
    requires Committable(states)
    ensures |r| == |states| && forall k :: 0 <= k < |states| ==> r[k] == Commit(states[k])
  {
    seq(|states|, k requires 0 <= k < |states| => Commit(states[k]))
  }

  /** After the compute phase every engine can commit. */
  lemma ComputedCommittable(topo: seq<Links>, states: seq<EngineState>)
    requires Ready(topo, states)
    ensures Committable(ComputeFrom(topo, states, 0, false).0)
  {
  }

  /** `step`: nothing without every node initialized; otherwise the compute phase over
      all nodes, then the commit phase, and whether no node reported a change. */
  function Step(topo: seq<Links>, states: seq<EngineState>): (r: (Option<bool>, seq<EngineState>))
    requires AllInitialized(states) ==> Ready(topo, states)
    ensures r.0.Some? <==> AllInitialized(states)
    ensures r.0.None? ==> r.1 == states
    ensures |r.1| == |states|
  {
    if !AllInitialized(states) then (None, states)
    else
      var (mid, changed) := ComputeFrom(topo, states, 0, false);
      (Some(!changed), CommitAll(mid))
  }

  /** A step keeps every engine initialized and ready. */
  lemma StepReady(topo: seq<Links>, states: seq<EngineState>)
    requires AllInitialized(states) && Ready(topo, states)
    ensures Step(topo, states).0.Some?
    ensures var s' := Step(topo, states).1;
      |s'| == |states| && AllInitialized(s') && Ready(topo, s') &&
      forall k :: 0 <= k < |states| ==> |s'[k].learnTable| == |states[k].learnTable|
  {
  }

  /** What node k's round sees in the compute phase of a step. */
  lemma StepRound(topo: seq<Links>, states: seq<EngineState>, k: nat)
    requires AllInitialized(states) && Ready(topo, states) && k < |states|
    ensures var mid := ComputeFrom(topo, states, 0, false).0;
      RoundOf(topo, mid, states, k) && Seen(mid, states, k)[k] == states[k] &&
      Step(topo, states).1[k] == Commit(Calc(k, topo[k], Seen(mid, states, k)).0) &&
      (forall m :: 0 <= m < |states| ==> Seen(mid, states, k)[m].nodeTable[m] == states[m].nodeTable[m])
  {
    ComputeFromSees(topo, states, 0, false);
    var mid := ComputeFrom(topo, states, 0, false).0;
    var s := Seen(mid, states, k);
    forall m | 0 <= m < |states| ensures s[m].nodeTable[m] == states[m].nodeTable[m] {
      if m < k { assert s[m] == mid[m]; } else { assert s[m] == states[m]; }
    }
  }

  /** A step reports convergence exactly when it leaves every node's table as it was. */
  lemma ConvergedIffTablesStable(topo: seq<Links>, states: seq<EngineState>)
    requires AllInitialized(states) && Ready(topo, states)
    ensures Step(topo, states).0 == Some(true) <==>
      forall k :: 0 <= k < |states| ==> Step(topo, states).1[k].nodeTable == states[k].nodeTable
  {
    ComputeFromChanged(topo, states, 0, false);
    var mid := ComputeFrom(topo, states, 0, false).0;
    var s' := Step(topo, states).1;
    forall k | 0 <= k < |states|
      ensures ChangedAt(topo, mid, states, k) <==> s'[k].nodeTable != states[k].nodeTable
    {
      StepRound(topo, states, k);
      ChangedIffCommittedDiffers(k, topo[k], Seen(mid, states, k));
    }
  }

  /** After a step a node's distance to itself is 0 when it has a neighbour in
      `node_list`, and unknown otherwise. */
  lemma SelfDistanceAfterStep(topo: seq<Links>, states: seq<EngineState>, k: nat)
    requires AllInitialized(states) && Ready(topo, states) && k < |states|
    ensures Step(topo, states).1[k].nodeTable[k][k] ==
      if exists m :: 0 <= m < |states| && topo[k].isNeighbor[m] then Some(0) else None
  {
    StepRound(topo, states, k);
    var mid := ComputeFrom(topo, states, 0, false).0;
    SelfRoute(k, topo[k], Seen(mid, states, k));
  }

  /** Every node advertises no negative distance. */
  predicate NonNegative(states: seq<EngineState>)
  {
    forall k :: 0 <= k < |states| && k < |states[k].nodeTable| ==> NonNegativeRow(states[k].nodeTable[k])
  }

  predicate NonNegativeCosts(topo: seq<Links>)
  {
    forall k, m :: 0 <= k < |topo| && 0 <= m < |topo[k].cost| && topo[k].cost[m].Some? ==>
      topo[k].cost[m].value >= 0
  }

  /** With non-negative edge costs, a step keeps every advertised distance non-negative. */
  lemma StepKeepsNonNegative(topo: seq<Links>, states: seq<EngineState>)
    requires AllInitialized(states) && Ready(topo, states)
    requires NonNegativeCosts(topo) && NonNegative(states)
    ensures NonNegative(Step(topo, states).1)
  {
    var mid := ComputeFrom(topo, states, 0, false).0;
    forall k | 0 <= k < |states|
      ensures NonNegativeRow(Step(topo, states).1[k].nodeTable[k])
    {
      StepRound(topo, states, k);
      NewRowNonNegative(k, topo[k], Seen(mid, states, k));
    }
  }

  /** The loop of `run_simulation`: a step and one more count while the count is below
      the limit and the last step did not converge. */
  function RunLoop(count: int, topo: seq<Links>, states: seq<EngineState>, converged: bool):
    (r: (int, seq<EngineState>, bool))
    requires AllInitialized(states) && Ready(topo, states)
    ensures AllInitialized(r.1) && Ready(topo, r.1)
    decreases MaxSteps - count
  {
    if count < MaxSteps && !converged then
      StepReady(topo, states);
      var (c, s') := Step(topo, states);
      RunLoop(count + 1, topo, s', c.value)
    else (count, states, converged)
  }

  /** One pass of the loop: below the limit and not yet converged, the loop is one step
      followed by the loop from the next count. */
  lemma RunLoopUnfold(count: int, topo: seq<Links>, states: seq<EngineState>)
    requires AllInitialized(states) && Ready(topo, states) && count < MaxSteps
    ensures Step(topo, states).0.Some?
    ensures RunLoop(count, topo, states, false) ==
      RunLoop(count + 1, topo, Step(topo, states).1, Step(topo, states).0.value)
  {
    StepReady(topo, states);
  }

  /** `run_simulation`: nothing unless every node is initialized; otherwise the loop,
      starting unconverged from the current count. */
  function Run(count: int, topo: seq<Links>, states: seq<EngineState>): (r: (int, seq<EngineState>))
    requires AllInitialized(states) ==> Ready(topo, states)
    ensures !AllInitialized(states) ==> r == (count, states)
    ensures r.0 >= count && |r.1| == |states|
    ensures AllInitialized(states) && count < MaxSteps ==> count < r.0 <= MaxSteps
  {
    if !AllInitialized(states) then (count, states)
    else
      RunLoopBounds(count, topo, states, false);
      var (c, s, _) := RunLoop(count, topo, states, false);
      (c, s)
  }

  /** The loop only counts up, never past the limit unless it started there, and it
      stops early only on a converged step; a count already at the limit does nothing. */
  lemma {:induction false} RunLoopBounds(count: int, topo: seq<Links>, states: seq<EngineState>, converged: bool)
    requires AllInitialized(states) && Ready(topo, states)
    ensures var r := RunLoop(count, topo, states, converged);
      r.0 >= count &&
      (count < MaxSteps && !converged ==> count < r.0 <= MaxSteps) &&
      (r.0 < MaxSteps ==> r.2) &&
      (count >= MaxSteps || converged ==> r == (count, states, converged))
    decreases MaxSteps - count
  {
    if count < MaxSteps && !converged {
      StepReady(topo, states);
      var (c, s') := Step(topo, states);
      RunLoopBounds(count + 1, topo, s', c.value);
    }
  }
}
