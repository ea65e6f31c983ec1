/** The greedy local search of bnsl/heuristic.py (class HillClimb): the
    candidate single-edge moves around a sample of nodes with their score
    deltas, and the climb with restarts, a tabu list and a score history.
    The random choices (the sampled node lists and the restart DAGs) are
    parameters. */
module HillClimbing {
  import opened Base
  import opened Paths
  import opened DirectGraph

  /** The three moves: ('+', e), ('-', e) and ('flip', e). */
  datatype OpKind = Add | Remove | Flip

  datatype Operation = Operation(kind: OpKind, edge: Edge)

  /** A move with the score delta possible_operation yields for it. */
  type Scored = (Operation, real)

  /** The direction argument of climb: 'up', 'down' or any other string. */
  datatype Direction = Up | Down | Other

  /** The searcher's state: its nodes, current DAG, tabu list, parameters
      and the score list of every restart run so far. */
  datatype HillClimb = HillClimb(
    nodes: seq<Var>,
    dag: Dag,
    tabu: seq<Operation>,
    maxIter: nat,
    restart: nat,
    exploreNum: nat,
    numParents: nat,
    history: seq<seq<real>>)

  /** HillClimb.__init__: an initial DAG is used only when it is truthy,
      that is when it has at least one node; otherwise the random DAG
      stands in for random_dag(nodes, num_parents). */
  function NewHillClimb(nodes: seq<Var>, initial: Option<Dag>, randomDag: Dag,
                        maxIter: nat, restart: nat, numExplore: nat, numParents: nat): (hc: HillClimb)
    ensures hc.tabu == [] && hc.history == []
    ensures initial.Some? && |initial.value.nodes| > 0 ==> hc.dag == initial.value
    ensures initial.None? || initial.value.nodes == [] ==> hc.dag == randomDag
    ensures hc.nodes == nodes && hc.maxIter == maxIter && hc.restart == restart && hc.exploreNum == numExplore
  {
    var dag := if initial.Some? && |initial.value.nodes| > 0 then initial.value else randomDag;
    HillClimb(nodes, dag, [], maxIter, restart, numExplore, numParents, [])
  }

  // ---------------------------------------------------------------------
  // Moves

  /** The DAG after a move: add_edge, remove_edge, or remove_edge(u, v)
      followed by add_edge(v, u). */
  function Apply(g: Dag, op: Operation): Dag {
    var u, v := op.edge.0, op.edge.1;
    match op.kind
    case Add => AddEdge(g, u, v)
    case Remove => Dag(g.nodes, g.edges - {(u, v)})
    case Flip => AddEdge(Dag(g.nodes, g.edges - {(u, v)}), v, u)
  }

  /** The flip guard: no simple path from u to v other than the edge
      itself, decided by reachability once the edge is taken out. */
  function FlipLegal(g: Dag, u: Var, v: Var): (r: bool)
    requires Closed(g.nodes, g.edges) && u in g.nodes
    ensures (u, v) in g.edges && u != v ==> (r <==> !HasLongSimplePath(g.edges, u, v))
  {
    var r := !HasPath(g.nodes, g.edges - {(u, v)}, u, v);
    assert (u, v) in g.edges && u != v ==> (r <==> !HasLongSimplePath(g.edges, u, v)) by {
      if (u, v) in g.edges && u != v {
        LongSimplePathIff(g.edges, u, v);
      }
    }
    r
  }

  function RemoveDelta(g: Dag, u: Var, v: Var, ls: Oracle): real {
    ls(v, Parents(g.edges, v) - {u}) - ls(v, Parents(g.edges, v))
  }

  function AddDelta(g: Dag, u: Var, v: Var, ls: Oracle): real {
    ls(v, Parents(g.edges, v) + {u}) - ls(v, Parents(g.edges, v))
  }

  function FlipDelta(g: Dag, u: Var, v: Var, ls: Oracle): real {
    ls(v, Parents(g.edges, v) - {u}) + ls(u, Parents(g.edges, u) + {v})
      - ls(v, Parents(g.edges, v)) - ls(u, Parents(g.edges, u))
  }

  /** The moves possible_operation yields for the candidate pair (u, v). */
  function OpsAt(g: Dag, u: Var, v: Var, tabu: seq<Operation>, ls: Oracle): set<Scored>
    requires Closed(g.nodes, g.edges) && u in g.nodes && v in g.nodes
  {
    if (u, v) in g.edges then
      (if Operation(Remove, (u, v)) in tabu then {} else {(Operation(Remove, (u, v)), RemoveDelta(g, u, v, ls))})
      + (if FlipLegal(g, u, v) && Operation(Flip, (u, v)) !in tabu
         then {(Operation(Flip, (u, v)), FlipDelta(g, u, v, ls))} else {})
    else if !HasPath(g.nodes, g.edges, v, u) && Operation(Add, (u, v)) !in tabu then
      {(Operation(Add, (u, v)), AddDelta(g, u, v, ls))}
    else {}
  }

  /** HillClimb.possible_operation: every move on a pair of distinct nodes
      one of which was sampled, with its score delta. */
  function PossibleOperations(g: Dag, nodeList: seq<Var>, tabu: seq<Operation>, ls: Oracle): (r: set<Scored>)
    requires Closed(g.nodes, g.edges)
    ensures forall s :: s in r ==>
      && s.0.edge.0 in g.nodes && s.0.edge.1 in g.nodes && s.0.edge.0 != s.0.edge.1
      && (s.0.edge.0 in nodeList || s.0.edge.1 in nodeList)
      && s.0 !in tabu
      && (s.0.kind == Add <==> s.0.edge !in g.edges)
  {
    set u, v, s | u in g.nodes && v in g.nodes && u != v && (u in nodeList || v in nodeList)
                  && s in OpsAt(g, u, v, tabu, ls) :: s
  }

  // ---------------------------------------------------------------------
  // What the moves do

  /** A move possible_operation may propose, stated independently: the
      guard of each kind in terms of paths, and the delta as the change of
      the total score. */
  ghost predicate Proposed(g: Dag, nodeList: seq<Var>, tabu: seq<Operation>, ls: Oracle, s: Scored) {
    var op := s.0;
    var u, v := op.edge.0, op.edge.1;
    && u in g.nodes && v in g.nodes && u != v && (u in nodeList || v in nodeList)
    && op !in tabu
    && (match op.kind
        case Remove => (u, v) in g.edges
        case Flip => (u, v) in g.edges && !HasLongSimplePath(g.edges, u, v)
        case Add => (u, v) !in g.edges && !Reaches(g.edges, v, u))
    && s.1 == TotalScore(Apply(g, op), ls) - TotalScore(g, ls)
  }

  lemma AddNodePresent(ns: seq<Var>, x: Var)
    requires x in ns
    ensures AddNode(ns, x) == ns
  {
  }

  /** Removing (u, v) changes the parents of v only. */
  lemma RemoveScore(g: Dag, u: Var, v: Var, ls: Oracle)
    requires WellFormed(g) && v in g.nodes
    ensures Apply(g, Operation(Remove, (u, v))).nodes == g.nodes
    ensures TotalScore(Apply(g, Operation(Remove, (u, v))), ls) - TotalScore(g, ls) == RemoveDelta(g, u, v, ls)
  {
    var F := g.edges - {(u, v)};
    assert Parents(F, v) == Parents(g.edges, v) - {u};
    forall k | 0 <= k < |g.nodes| && g.nodes[k] != v ensures Parents(g.edges, g.nodes[k]) == Parents(F, g.nodes[k]) {
    }
    SumLocalOneChange(g.nodes, g.edges, F, ls, v);
  }

  /** Adding (u, v) between present nodes changes the parents of v only. */
  lemma AddScore(g: Dag, u: Var, v: Var, ls: Oracle)
    requires WellFormed(g) && u in g.nodes && v in g.nodes
    ensures Apply(g, Operation(Add, (u, v))).nodes == g.nodes
    ensures TotalScore(Apply(g, Operation(Add, (u, v))), ls) - TotalScore(g, ls) == AddDelta(g, u, v, ls)
  {
    AddNodePresent(g.nodes, u);
    AddNodePresent(g.nodes, v);
    var F := g.edges + {(u, v)};
    assert Parents(F, v) == Parents(g.edges, v) + {u};
    forall k | 0 <= k < |g.nodes| && g.nodes[k] != v ensures Parents(g.edges, g.nodes[k]) == Parents(F, g.nodes[k]) {
    }
    SumLocalOneChange(g.nodes, g.edges, F, ls, v);
  }

  /** Flipping (u, v) changes the parents of u and v only. */
  lemma FlipScore(g: Dag, u: Var, v: Var, ls: Oracle)
    requires WellFormed(g) && u in g.nodes && v in g.nodes && u != v
    ensures Apply(g, Operation(Flip, (u, v))).nodes == g.nodes
    ensures Apply(g, Operation(Flip, (u, v))).edges == g.edges - {(u, v)} + {(v, u)}
    ensures TotalScore(Apply(g, Operation(Flip, (u, v))), ls) - TotalScore(g, ls) == FlipDelta(g, u, v, ls)
  {
    AddNodePresent(g.nodes, u);
    AddNodePresent(g.nodes, v);
    var F := g.edges - {(u, v)} + {(v, u)};
    assert Parents(F, v) == Parents(g.edges, v) - {u};
    assert Parents(F, u) == Parents(g.edges, u) + {v};
    forall k | 0 <= k < |g.nodes| && g.nodes[k] != u && g.nodes[k] != v
      ensures Parents(g.edges, g.nodes[k]) == Parents(F, g.nodes[k]) {
    }
    SumLocalTwoChanges(g.nodes, g.edges, F, ls, u, v);
  }

  /** The moves at one candidate pair are exactly the proposable ones. */
  lemma OpsAtExact(g: Dag, nodeList: seq<Var>, tabu: seq<Operation>, ls: Oracle, u: Var, v: Var, s: Scored)
    requires WellFormed(g) && u in g.nodes && v in g.nodes && u != v && (u in nodeList || v in nodeList)
    requires s.0.edge == (u, v)
    ensures s in OpsAt(g, u, v, tabu, ls) <==> Proposed(g, nodeList, tabu, ls, s)
  {
    match s.0.kind
    case Remove => RemoveScore(g, u, v, ls);
    case Add => AddScore(g, u, v, ls);
    case Flip => FlipScore(g, u, v, ls);
  }

  /** possible_operation yields exactly the moves on a sampled pair that
      are not tabu, whose guard holds, with the true change of score. */
  lemma PossibleOperationsExact(g: Dag, nodeList: seq<Var>, tabu: seq<Operation>, ls: Oracle, s: Scored)
    requires WellFormed(g)
    ensures s in PossibleOperations(g, nodeList, tabu, ls) <==> Proposed(g, nodeList, tabu, ls, s)
  {
    if s in PossibleOperations(g, nodeList, tabu, ls) {
      YieldedIsProposed(g, nodeList, tabu, ls, s);
    }
    if Proposed(g, nodeList, tabu, ls, s) {
      ProposedIsYielded(g, nodeList, tabu, ls, s);
    }
  }

  lemma YieldedIsProposed(g: Dag, nodeList: seq<Var>, tabu: seq<Operation>, ls: Oracle, s: Scored)
    requires WellFormed(g)
    requires s in PossibleOperations(g, nodeList, tabu, ls)
    ensures Proposed(g, nodeList, tabu, ls, s)
  {
    var u, v :| u in g.nodes && v in g.nodes && u != v && (u in nodeList || v in nodeList)
                && s in OpsAt(g, u, v, tabu, ls);
    assert s.0.edge == (u, v);
    OpsAtExact(g, nodeList, tabu, ls, u, v, s);
  }

  lemma ProposedIsYielded(g: Dag, nodeList: seq<Var>, tabu: seq<Operation>, ls: Oracle, s: Scored)
    requires WellFormed(g)
    requires Proposed(g, nodeList, tabu, ls, s)
    ensures s in PossibleOperations(g, nodeList, tabu, ls)
  {
    var u, v := s.0.edge.0, s.0.edge.1;
    OpsAtExact(g, nodeList, tabu, ls, u, v, s);
    assert s in OpsAt(g, u, v, tabu, ls);
  }

  /** Every proposed move keeps the graph a DAG over the same nodes. */
  lemma ApplyKeepsDag(g: Dag, nodeList: seq<Var>, tabu: seq<Operation>, ls: Oracle, s: Scored)
    requires IsDag(g) && Proposed(g, nodeList, tabu, ls, s)
    ensures IsDag(Apply(g, s.0)) && Apply(g, s.0).nodes == g.nodes
  {
    var u, v := s.0.edge.0, s.0.edge.1;
    AddNodePresent(g.nodes, u);
    AddNodePresent(g.nodes, v);
    var E := g.edges - {(u, v)};
    AcyclicSubset(g.edges, E);
    match s.0.kind
    case Remove =>
    case Add =>
      AddEdgeAcyclic(g.edges, u, v);
    case Flip =>
      LongSimplePathIff(g.edges, u, v);
      AddEdgeAcyclic(E, v, u);
  }

  /** A proposed move, applied, yields a DAG whose score is the old score
      plus the move's delta. */
  lemma MoveSound(g: Dag, nodeList: seq<Var>, tabu: seq<Operation>, ls: Oracle, s: Scored)
    requires IsDag(g)
    requires s in PossibleOperations(g, nodeList, tabu, ls)
    ensures IsDag(Apply(g, s.0)) && Apply(g, s.0).nodes == g.nodes
    ensures TotalScore(Apply(g, s.0), ls) == TotalScore(g, ls) + s.1
  {
    PossibleOperationsExact(g, nodeList, tabu, ls, s);
    ApplyKeepsDag(g, nodeList, tabu, ls, s);
  }

  /** The tabu entry ('+', (u, v)) a removal leaves keeps the removed edge
      out: while it stays on the list, adding (u, v) is never proposed. */
  lemma RemovalNotUndone(g: Dag, nodeList: seq<Var>, tabu: seq<Operation>, ls: Oracle, u: Var, v: Var, d: real)
    requires Closed(g.nodes, g.edges)
    requires Operation(Add, (u, v)) in tabu
    ensures (Operation(Add, (u, v)), d) !in PossibleOperations(g, nodeList, tabu, ls)
  {
  }

  /** The tabu entry ('flip', (u, v)) does not stop the flip from being
      undone: after a legal flip of (u, v) in a DAG, the next call proposes
      flipping (v, u) back, with the opposite delta, unless that move was
      already tabu. */
  lemma FlipBackProposed(g: Dag, nodeList: seq<Var>, tabu: seq<Operation>, ls: Oracle, u: Var, v: Var)
    requires IsDag(g)
    requires (u, v) in g.edges && !HasLongSimplePath(g.edges, u, v) && (u in nodeList || v in nodeList)
    requires Operation(Flip, (v, u)) !in tabu
    ensures var g' := Apply(g, Operation(Flip, (u, v)));
      (Operation(Flip, (v, u)), -FlipDelta(g, u, v, ls))
        in PossibleOperations(g', nodeList, tabu + [Operation(Flip, (u, v))], ls)
  {
    assert u != v by {
      assert IsCycle(g.edges, [u, v]) || u != v;
    }
    var g' := Apply(g, Operation(Flip, (u, v)));
    FlipScore(g, u, v, ls);
    var E := g.edges - {(u, v)};
    assert (v, u) !in g.edges by {
      assert !IsCycle(g.edges, [u, v, u]);
    }
    assert g'.edges - {(v, u)} == E;
    // any v-u path avoiding the new edge would close a cycle with (u, v)
    if Reaches(E, v, u) {
      ReachesMono(E, g.edges, v, u);
      AcyclicIffNoBackEdge(g.edges);
    }
    assert !Reaches(g'.edges - {(v, u)}, v, u);
    LongSimplePathIff(g'.edges, v, u);
    assert IsDag(g') by {
      LongSimplePathIff(g.edges, u, v);
      AcyclicSubset(g.edges, E);
      AddEdgeAcyclic(E, v, u);
    }
    FlipScore(g', v, u, ls);
    var tabu' := tabu + [Operation(Flip, (u, v))];
    assert Apply(g', Operation(Flip, (v, u))).edges == g.edges;
    assert Apply(g', Operation(Flip, (v, u))) == g;
    PossibleOperationsExact(g', nodeList, tabu', ls, (Operation(Flip, (v, u)), -FlipDelta(g, u, v, ls)));
  }

  // ---------------------------------------------------------------------
  // climb

  /** d is at least as good as e in the search direction; any direction
      other than 'up' descends. */
  predicate AtLeastAsGood(dir: Direction, d: real, e: real) {
    if dir == Up then d >= e else d <= e
  }

  /** The running scores never move against the search direction. */
  predicate Monotone(scores: seq<real>, dir: Direction) {
    forall i :: 0 <= i < |scores| - 1 ==> AtLeastAsGood(dir, scores[i + 1], scores[i])
  }

  /** max (or min) over the yielded moves by delta: a move whose delta is
      best; which of several equal ones depends on set iteration order. */
  method BestOperation(ops: set<Scored>, dir: Direction) returns (best: Scored)
    requires ops != {}
    ensures best in ops
    ensures forall o :: o in ops ==> AtLeastAsGood(dir, best.1, o.1)
  {
    best :| best in ops;
    var rest := ops - {best};
    while rest != {}
      invariant best in ops && rest <= ops
      invariant forall o :: o in ops && o !in rest ==> AtLeastAsGood(dir, best.1, o.1)
      decreases |rest|
    {
      var o :| o in rest;
      if !AtLeastAsGood(dir, best.1, o.1) {
        best := o;
      }
      rest := rest - {o};
    }
  }

  /** The tabu entry a taken move leaves: removing an edge bars adding it
      back, flipping an edge bars flipping it again; adding leaves none. */
  function NextTabu(tabu: seq<Operation>, op: Operation): (r: seq<Operation>)
    ensures |tabu| <= |r| <= |tabu| + 1 && r[..|tabu|] == tabu
    ensures op.kind == Remove ==> Operation(Add, op.edge) in r
    ensures op.kind == Flip ==> Operation(Flip, op.edge) in r
    ensures op.kind == Add ==> r == tabu
  {
    match op.kind
    case Remove => tabu + [Operation(Add, op.edge)]
    case Flip => tabu + [Operation(Flip, op.edge)]
    case Add => tabu
  }

  lemma TabuSnoc(tabu0: seq<Operation>, tabu: seq<Operation>, op: Operation)
    requires TabuExtends(tabu0, tabu)
    ensures TabuExtends(tabu0, NextTabu(tabu, op))
  {
    if op.kind != Add {
      var t := NextTabu(tabu, op);
      assert t[..|tabu0|] == tabu[..|tabu0|];
    }
  }

  lemma MonotoneSnoc(scores: seq<real>, dir: Direction, d: real)
    requires Monotone(scores, dir) && |scores| > 0
    requires AtLeastAsGood(dir, scores[|scores| - 1] + d, scores[|scores| - 1])
    ensures Monotone(scores + [scores[|scores| - 1] + d], dir)
  {
  }

  /** A sampled node is not in a graph that has nodes: has_path is then
      asked about a pair with that node at one end, and raises
      NodeNotFound. (With no nodes in the graph there is no pair to ask
      about.) */
  predicate NodeMissing(g: Dag, nodeList: seq<Var>) {
    |g.nodes| > 0 && exists x :: x in nodeList && x !in g.nodes
  }

  /** The error max (or min) over possible_operation raises when it raises:
      NodeNotFound from has_path, otherwise the empty-sequence error. */
  function StuckError(g: Dag, nodeList: seq<Var>): Error {
    if NodeMissing(g, nodeList) then NodeNotFound else NoOperation
  }

  /** One iteration's choice: fails when a sampled node is missing or no
      move is possible; otherwise the best move, or None when even the best
      move goes against the direction (climb's break). */
  method ChooseMove(g: Dag, nodeList: seq<Var>, tabu: seq<Operation>, dir: Direction, ls: Oracle)
    returns (r: Result<Option<Scored>>)
    requires IsDag(g)
    ensures r.Failure? <==> NodeMissing(g, nodeList) || PossibleOperations(g, nodeList, tabu, ls) == {}
    ensures r.Failure? ==> r.error == StuckError(g, nodeList)
    ensures r == Success(None) ==> forall o :: o in PossibleOperations(g, nodeList, tabu, ls) ==> !AtLeastAsGood(dir, o.1, 0.0)
    ensures r.Success? && r.value.Some? ==>
      var best := r.value.value;
      && best in PossibleOperations(g, nodeList, tabu, ls)
      && (forall o :: o in PossibleOperations(g, nodeList, tabu, ls) ==> AtLeastAsGood(dir, best.1, o.1))
      && AtLeastAsGood(dir, best.1, 0.0)
      && IsDag(Apply(g, best.0)) && Apply(g, best.0).nodes == g.nodes
      && TotalScore(Apply(g, best.0), ls) == TotalScore(g, ls) + best.1
  {
    if NodeMissing(g, nodeList) {
      return Failure(NodeNotFound);
    }
    var ops := PossibleOperations(g, nodeList, tabu, ls);
    if ops == {} {
      return Failure(NoOperation);
    }
    var best := BestOperation(ops, dir);
    if (dir == Up && best.1 < 0.0) || (dir != Up && best.1 > 0.0) {
      return Success(None);
    }
    MoveSound(g, nodeList, tabu, ls, best);
    return Success(Some(best));
  }

  // ---------------------------------------------------------------------
  // Runs: what one restart of climb does, move by move

  /** The DAG after taking the moves in turn from start. */
  function Walk(start: Dag, moves: seq<Scored>): Dag {
    if moves == [] then start
    else Apply(Walk(start, moves[..|moves| - 1]), moves[|moves| - 1].0)
  }

  /** The tabu list after taking the moves in turn. */
  function TabuAfter(tabu0: seq<Operation>, moves: seq<Scored>): seq<Operation> {
    if moves == [] then tabu0
    else NextTabu(TabuAfter(tabu0, moves[..|moves| - 1]), moves[|moves| - 1].0)
  }

  /** The score list of a run: the start's score, then for every move the
      last entry plus the move's delta. */
  function RunningScores(s0: real, moves: seq<Scored>): (r: seq<real>)
    ensures |r| == |moves| + 1 && r[0] == s0
    ensures forall k :: 0 <= k < |moves| ==> r[k + 1] == r[k] + moves[k].1
  {
    if moves == [] then [s0]
    else
      var prev := RunningScores(s0, moves[..|moves| - 1]);
      prev + [prev[|moves| - 1] + moves[|moves| - 1].1]
  }

  /** possible_operation can be asked about g and the node list without
      raising NodeNotFound. */
  ghost predicate Explorable(g: Dag, nodeList: seq<Var>) {
    IsDag(g) && !NodeMissing(g, nodeList)
  }

  /** m is on offer and no move on offer has a better delta. */
  ghost predicate IsBest(ops: set<Scored>, dir: Direction, m: Scored) {
    m in ops && forall o :: o in ops ==> AtLeastAsGood(dir, m.1, o.1)
  }

  /** Move k of restart run: after the first k moves, with the node list
      pick(run, k), it is a best move on offer, and its delta does not go
      against the direction, so the loop takes it. */
  ghost predicate TookBest(start: Dag, tabu0: seq<Operation>, dir: Direction, ls: Oracle,
                           pick: (nat, nat) -> seq<Var>, run: nat, moves: seq<Scored>, k: nat) {
    && k < |moves|
    && var g, t := Walk(start, moves[..k]), TabuAfter(tabu0, moves[..k]);
       && Explorable(g, pick(run, k))
       && IsBest(PossibleOperations(g, pick(run, k), t, ls), dir, moves[k])
       && AtLeastAsGood(dir, moves[k].1, 0.0)
  }

  /** The moves of a greedy run: at most max_iter of them, each a best move
      on offer at its turn. */
  ghost predicate GreedyRun(start: Dag, tabu0: seq<Operation>, dir: Direction, ls: Oracle, maxIter: nat,
                            pick: (nat, nat) -> seq<Var>, run: nat, moves: seq<Scored>) {
    && |moves| <= maxIter
    && forall k :: 0 <= k < |moves| ==> TookBest(start, tabu0, dir, ls, pick, run, moves, k)
  }

  /** A run ends normally after max_iter moves, or at the break: moves are
      on offer but the best of them goes against the direction. */
  ghost predicate Ended(start: Dag, tabu0: seq<Operation>, dir: Direction, ls: Oracle, maxIter: nat,
                        pick: (nat, nat) -> seq<Var>, run: nat, moves: seq<Scored>) {
    || |moves| == maxIter
    || var g, t := Walk(start, moves), TabuAfter(tabu0, moves);
       && Explorable(g, pick(run, |moves|))
       && PossibleOperations(g, pick(run, |moves|), t, ls) != {}
       && forall o :: o in PossibleOperations(g, pick(run, |moves|), t, ls) ==> !AtLeastAsGood(dir, o.1, 0.0)
  }

  /** A run fails before max_iter moves when a sampled node is missing or
      nothing is on offer: has_path raises, or max (or min) of an empty
      generator does. */
  ghost predicate Blocked(start: Dag, tabu0: seq<Operation>, ls: Oracle, maxIter: nat,
                          pick: (nat, nat) -> seq<Var>, run: nat, moves: seq<Scored>) {
    && |moves| < maxIter
    && var g, t := Walk(start, moves), TabuAfter(tabu0, moves);
       && IsDag(g)
       && (NodeMissing(g, pick(run, |moves|)) || PossibleOperations(g, pick(run, |moves|), t, ls) == {})
  }

  /** What holds of a run after every iteration: the DAG, tabu list and
      scores are those the moves so far produce, every move was a best one,
      and the graph stays a DAG over the starting nodes. */
  ghost predicate RunSoFar(start: Dag, tabu0: seq<Operation>, dir: Direction, ls: Oracle,
                           pick: (nat, nat) -> seq<Var>, run: nat, moves: seq<Scored>,
                           g: Dag, tabu: seq<Operation>, scores: seq<real>) {
    && g == Walk(start, moves) && tabu == TabuAfter(tabu0, moves)
    && scores == RunningScores(TotalScore(start, ls), moves)
    && (forall k :: 0 <= k < |moves| ==> TookBest(start, tabu0, dir, ls, pick, run, moves, k))
    && IsDag(g) && g.nodes == start.nodes
    && scores[|scores| - 1] == TotalScore(g, ls)
    && Monotone(scores, dir)
    && TabuExtends(tabu0, tabu)
  }

  lemma SnocPrefix(moves: seq<Scored>, m: Scored, k: nat)
    requires k <= |moves|
    ensures (moves + [m])[..k] == moves[..k]
    ensures k < |moves| ==> (moves + [m])[k] == moves[k]
  {
  }

  /** An earlier move of a run stays a best move once another is taken. */
  lemma TookBestKept(start: Dag, tabu0: seq<Operation>, dir: Direction, ls: Oracle,
                     pick: (nat, nat) -> seq<Var>, run: nat, moves: seq<Scored>, m: Scored, k: nat)
    requires k < |moves| && TookBest(start, tabu0, dir, ls, pick, run, moves, k)
    ensures TookBest(start, tabu0, dir, ls, pick, run, moves + [m], k)
  {
    SnocPrefix(moves, m, k);
  }

  /** The move just taken is a best move at its turn. */
  lemma TookBestLast(start: Dag, tabu0: seq<Operation>, dir: Direction, ls: Oracle,
                     pick: (nat, nat) -> seq<Var>, run: nat, moves: seq<Scored>, m: Scored)
    requires var g, t := Walk(start, moves), TabuAfter(tabu0, moves);
      && Explorable(g, pick(run, |moves|))
      && IsBest(PossibleOperations(g, pick(run, |moves|), t, ls), dir, m)
      && AtLeastAsGood(dir, m.1, 0.0)
    ensures TookBest(start, tabu0, dir, ls, pick, run, moves + [m], |moves|)
  {
    assert (moves + [m])[..|moves|] == moves;
    assert (moves + [m])[|moves|] == m;
  }

  /** The earlier moves of a run stay best moves once another is taken. */
  lemma TookBestSnoc(start: Dag, tabu0: seq<Operation>, dir: Direction, ls: Oracle,
                     pick: (nat, nat) -> seq<Var>, run: nat, moves: seq<Scored>, m: Scored)
    requires forall k :: 0 <= k < |moves| ==> TookBest(start, tabu0, dir, ls, pick, run, moves, k)
    requires var g, t := Walk(start, moves), TabuAfter(tabu0, moves);
      && Explorable(g, pick(run, |moves|))
      && IsBest(PossibleOperations(g, pick(run, |moves|), t, ls), dir, m)
      && AtLeastAsGood(dir, m.1, 0.0)
    ensures forall k :: 0 <= k < |moves| + 1 ==> TookBest(start, tabu0, dir, ls, pick, run, moves + [m], k)
  {
    forall k | 0 <= k < |moves| ensures TookBest(start, tabu0, dir, ls, pick, run, moves + [m], k) {
      TookBestKept(start, tabu0, dir, ls, pick, run, moves, m, k);
    }
    TookBestLast(start, tabu0, dir, ls, pick, run, moves, m);
  }

  /** Appending a move to a run applies it to the DAG, the tabu list and
      the score list the earlier moves produce. */
  lemma RunSnoc(start: Dag, tabu0: seq<Operation>, s0: real, moves: seq<Scored>, m: Scored,
                g: Dag, tabu: seq<Operation>, scores: seq<real>)
    requires g == Walk(start, moves) && tabu == TabuAfter(tabu0, moves) && scores == RunningScores(s0, moves)
    ensures Walk(start, moves + [m]) == Apply(g, m.0)
    ensures TabuAfter(tabu0, moves + [m]) == NextTabu(tabu, m.0)
    ensures RunningScores(s0, moves + [m]) == scores + [scores[|scores| - 1] + m.1]
  {
    var ms := moves + [m];
    assert ms[..|ms| - 1] == moves;
  }

  /** The DAG, score and tabu facts of a run survive one more best move. */
  lemma StepFacts(start: Dag, tabu0: seq<Operation>, dir: Direction, ls: Oracle, nodeList: seq<Var>,
                  g: Dag, tabu: seq<Operation>, scores: seq<real>, m: Scored)
    requires IsDag(g) && g.nodes == start.nodes && |scores| > 0 && scores[|scores| - 1] == TotalScore(g, ls)
    requires Monotone(scores, dir) && TabuExtends(tabu0, tabu)
    requires IsBest(PossibleOperations(g, nodeList, tabu, ls), dir, m)
    requires AtLeastAsGood(dir, m.1, 0.0)
    ensures var g', scores' := Apply(g, m.0), scores + [scores[|scores| - 1] + m.1];
      && IsDag(g') && g'.nodes == start.nodes && scores'[|scores'| - 1] == TotalScore(g', ls)
      && Monotone(scores', dir) && TabuExtends(tabu0, NextTabu(tabu, m.0))
  {
    MoveSound(g, nodeList, tabu, ls, m);
    MonotoneSnoc(scores, dir, m.1);
    TabuSnoc(tabu0, tabu, m.0);
  }

  /** Taking a best move that does not go against the direction keeps the
      run's invariant. */
  lemma StepKept(start: Dag, tabu0: seq<Operation>, dir: Direction, ls: Oracle,
                 pick: (nat, nat) -> seq<Var>, run: nat, moves: seq<Scored>,
                 g: Dag, tabu: seq<Operation>, scores: seq<real>, m: Scored)
    requires RunSoFar(start, tabu0, dir, ls, pick, run, moves, g, tabu, scores)
    requires Explorable(g, pick(run, |moves|))
    requires IsBest(PossibleOperations(g, pick(run, |moves|), tabu, ls), dir, m)
    requires AtLeastAsGood(dir, m.1, 0.0)
    ensures RunSoFar(start, tabu0, dir, ls, pick, run, moves + [m],
                     Apply(g, m.0), NextTabu(tabu, m.0), scores + [scores[|scores| - 1] + m.1])
  {
    RunSnoc(start, tabu0, TotalScore(start, ls), moves, m, g, tabu, scores);
    TookBestSnoc(start, tabu0, dir, ls, pick, run, moves, m);
    StepFacts(start, tabu0, dir, ls, pick(run, |moves|), g, tabu, scores, m);
  }

  /** One restart of climb from start: up to max_iter iterations, each
      taking the best move on offer for the node list pick(run, i), until
      the best move goes against the direction. Returns the final DAG, the
      tabu list and the score list, and the moves taken. */
  method ClimbFrom(start: Dag, tabu0: seq<Operation>, dir: Direction, ls: Oracle, maxIter: nat,
                   pick: (nat, nat) -> seq<Var>, run: nat)
    returns (r: Result<(Dag, seq<Operation>, seq<real>)>, moves: seq<Scored>)
    requires IsDag(start)
    ensures GreedyRun(start, tabu0, dir, ls, maxIter, pick, run, moves)
    ensures r.Failure? <==> Blocked(start, tabu0, ls, maxIter, pick, run, moves)
    ensures r.Failure? ==> r.error == StuckError(start, pick(run, |moves|))
    ensures r.Success? ==> Ended(start, tabu0, dir, ls, maxIter, pick, run, moves)
    ensures r.Success? ==>
      r.value == (Walk(start, moves), TabuAfter(tabu0, moves), RunningScores(TotalScore(start, ls), moves))
    ensures r.Success? ==> IsDag(r.value.0) && r.value.0.nodes == start.nodes
    ensures r.Success? ==> r.value.2[|r.value.2| - 1] == TotalScore(r.value.0, ls)
    ensures r.Success? ==> Monotone(r.value.2, dir) && TabuExtends(tabu0, r.value.1)
  {
    var g, tabu, scores := start, tabu0, [TotalScore(start, ls)];
    moves := [];
    while |moves| < maxIter
      invariant |moves| <= maxIter
      invariant RunSoFar(start, tabu0, dir, ls, pick, run, moves, g, tabu, scores)
      decreases maxIter - |moves|
    {
      var choice := ChooseMove(g, pick(run, |moves|), tabu, dir, ls);
      if choice.Failure? {
        return Failure(choice.error), moves;
      }
      if choice.value.None? {
        break;
      }
      var m := choice.value.value;
      StepKept(start, tabu0, dir, ls, pick, run, moves, g, tabu, scores, m);
      g, tabu, scores, moves := Apply(g, m.0), NextTabu(tabu, m.0), scores + [scores[|scores| - 1] + m.1], moves + [m];
    }
    return Success((g, tabu, scores)), moves;
  }

  /** The tabu list grows along a run: the list after a prefix of the moves
      is a prefix of the list after all of them. */
  lemma {:induction false} TabuAfterGrows(tabu0: seq<Operation>, moves: seq<Scored>, i: nat)
    requires i <= |moves|
    ensures TabuExtends(TabuAfter(tabu0, moves[..i]), TabuAfter(tabu0, moves))
    decreases |moves|
  {
    if i == |moves| {
      assert moves[..i] == moves;
      var t := TabuAfter(tabu0, moves);
      assert t[..|t|] == t;
    } else {
      var init := moves[..|moves| - 1];
      TabuAfterGrows(tabu0, init, i);
      assert init[..i] == moves[..i];
      TabuSnoc(TabuAfter(tabu0, moves[..i]), TabuAfter(tabu0, init), moves[|moves| - 1].0);
    }
  }

  /** Within a run, an edge the climb removed is never added back: the
      removal leaves ('+', e) on the tabu list, which blocks the addition
      from then on. */
  lemma RemovedEdgeStaysOut(start: Dag, tabu0: seq<Operation>, dir: Direction, ls: Oracle, maxIter: nat,
                            pick: (nat, nat) -> seq<Var>, run: nat, moves: seq<Scored>, i: nat, j: nat)
    requires GreedyRun(start, tabu0, dir, ls, maxIter, pick, run, moves)
    requires i < j < |moves| && moves[i].0.kind == Remove
    ensures moves[j].0 != Operation(Add, moves[i].0.edge)
  {
    var e := moves[i].0.edge;
    var pre := moves[..j];
    assert pre[..i + 1] == moves[..i + 1];
    assert moves[..i + 1][..i] == moves[..i];
    var ti := TabuAfter(tabu0, moves[..i + 1]);
    assert ti == TabuAfter(tabu0, moves[..i]) + [Operation(Add, e)];
    TabuAfterGrows(tabu0, pre, i + 1);
    var tj := TabuAfter(tabu0, pre);
    assert tj[|ti| - 1] == Operation(Add, e);
    assert TookBest(start, tabu0, dir, ls, pick, run, moves, j);
    var g := Walk(start, pre);
    RemovalNotUndone(g, pick(run, j), tj, ls, e.0, e.1, moves[j].1);
  }

  /** The index max (or min) with a key returns: the first best score. */
  function FirstBest(xs: seq<real>, dir: Direction): (k: nat)
    requires |xs| > 0
    ensures k < |xs|
    ensures forall j :: 0 <= j < |xs| ==> AtLeastAsGood(dir, xs[k], xs[j])
    ensures forall j :: 0 <= j < k ==> !AtLeastAsGood(dir, xs[j], xs[k])
  {
    if |xs| == 1 then 0
    else
      var k := FirstBest(xs[..|xs| - 1], dir);
      assert forall j :: 0 <= j < |xs| - 1 ==> xs[..|xs| - 1][j] == xs[j];
      if AtLeastAsGood(dir, xs[k], xs[|xs| - 1]) then k else |xs| - 1
  }

  /** The DAG a restart starts from: the searcher's DAG first, then the
      random DAGs. */
  function StartOf(hc: HillClimb, restarts: seq<Dag>, i: nat): Dag
    requires i <= |restarts|
  {
    if i == 0 then hc.dag else restarts[i - 1]
  }

  /** The scores of the restart results. */
  function ResultScores(results: seq<(Dag, real)>): (xs: seq<real>)
    ensures |xs| == |results| && forall k :: 0 <= k < |xs| ==> xs[k] == results[k].1
  {
    seq(|results|, k requires 0 <= k < |results| => results[k].1)
  }

  /** The tabu list only grows, by ('+', e) and ('flip', e) entries. */
  predicate TabuExtends(old0: seq<Operation>, t: seq<Operation>) {
    && |old0| <= |t| && t[..|old0|] == old0
    && forall k :: |old0| <= k < |t| ==> t[k].kind != Remove
  }

  /** The tabu list at the start of restart k: the searcher's list, then
      each earlier run's entries in turn (the list is never cleared). */
  function TabuChain(tabu0: seq<Operation>, runs: seq<seq<Scored>>, k: nat): seq<Operation>
    requires k <= |runs|
  {
    if k == 0 then tabu0 else TabuAfter(TabuChain(tabu0, runs, k - 1), runs[k - 1])
  }

  /** Restart k of climb was a greedy run from its start DAG, with the tabu
      list the earlier runs left. */
  ghost predicate RestartRun(hc: HillClimb, restarts: seq<Dag>, dir: Direction, ls: Oracle,
                             pick: (nat, nat) -> seq<Var>, runs: seq<seq<Scored>>, k: nat) {
    && k < |runs| && k <= |restarts|
    && GreedyRun(StartOf(hc, restarts, k), TabuChain(hc.tabu, runs, k), dir, ls, hc.maxIter, pick, k, runs[k])
  }

  /** Restart k ended normally, with the result (DAG, score) and score list
      h that its moves produce. */
  ghost predicate RestartDone(hc: HillClimb, restarts: seq<Dag>, dir: Direction, ls: Oracle,
                              pick: (nat, nat) -> seq<Var>, runs: seq<seq<Scored>>, k: nat,
                              result: (Dag, real), h: seq<real>) {
    && RestartRun(hc, restarts, dir, ls, pick, runs, k)
    && var start := StartOf(hc, restarts, k);
       && Ended(start, TabuChain(hc.tabu, runs, k), dir, ls, hc.maxIter, pick, k, runs[k])
       && result.0 == Walk(start, runs[k]) && IsDag(result.0)
       && result.1 == TotalScore(result.0, ls)
       && h == RunningScores(TotalScore(start, ls), runs[k])
       && Monotone(h, dir)
  }

  lemma TabuChainSnoc(tabu0: seq<Operation>, runs: seq<seq<Scored>>, m: seq<Scored>, k: nat)
    requires k <= |runs|
    ensures TabuChain(tabu0, runs + [m], k) == TabuChain(tabu0, runs, k)
  {
    if k > 0 {
      TabuChainSnoc(tabu0, runs, m, k - 1);
      assert (runs + [m])[k - 1] == runs[k - 1];
    }
  }

  lemma TabuChainExtends(tabu0: seq<Operation>, runs: seq<seq<Scored>>, k: nat)
    requires k <= |runs|
    ensures TabuExtends(tabu0, TabuChain(tabu0, runs, k))
  {
    if k > 0 {
      var prev := TabuChain(tabu0, runs, k - 1);
      TabuChainExtends(tabu0, runs, k - 1);
      TabuAfterGrows(prev, runs[k - 1], 0);
      assert runs[k - 1][..0] == [];
      var t := TabuChain(tabu0, runs, k);
      assert t[..|tabu0|] == prev[..|tabu0|];
    }
  }

  /** What holds after the first |runs| restarts of climb: each ended
      normally with its result and score list, and tabu is the list they
      left. */
  ghost predicate RestartsSoFar(hc: HillClimb, restarts: seq<Dag>, dir: Direction, ls: Oracle,
                                pick: (nat, nat) -> seq<Var>, runs: seq<seq<Scored>>,
                                results: seq<(Dag, real)>, hs: seq<seq<real>>, tabu: seq<Operation>) {
    && |results| == |runs| && |hs| == |runs|
    && tabu == TabuChain(hc.tabu, runs, |runs|)
    && forall k :: 0 <= k < |runs| ==> RestartDone(hc, restarts, dir, ls, pick, runs, k, results[k], hs[k])
  }

  lemma RestartsSoFarRuns(hc: HillClimb, restarts: seq<Dag>, dir: Direction, ls: Oracle,
                          pick: (nat, nat) -> seq<Var>, runs: seq<seq<Scored>>,
                          results: seq<(Dag, real)>, hs: seq<seq<real>>, tabu: seq<Operation>)
    requires RestartsSoFar(hc, restarts, dir, ls, pick, runs, results, hs, tabu)
    ensures forall k :: 0 <= k < |runs| ==> RestartRun(hc, restarts, dir, ls, pick, runs, k)
  {
    forall k | 0 <= k < |runs| ensures RestartRun(hc, restarts, dir, ls, pick, runs, k) {
      assert RestartDone(hc, restarts, dir, ls, pick, runs, k, results[k], hs[k]);
    }
  }

  /** The completed restarts stay as they were once another run is added. */
  lemma RestartsSnoc(hc: HillClimb, restarts: seq<Dag>, dir: Direction, ls: Oracle,
                     pick: (nat, nat) -> seq<Var>, runs: seq<seq<Scored>>, m: seq<Scored>,
                     results: seq<(Dag, real)>, hs: seq<seq<real>>)
    requires |results| == |runs| && |hs| == |runs|
    requires forall k :: 0 <= k < |runs| ==> RestartDone(hc, restarts, dir, ls, pick, runs, k, results[k], hs[k])
    ensures forall k :: 0 <= k < |runs| ==> RestartDone(hc, restarts, dir, ls, pick, runs + [m], k, results[k], hs[k])
  {
    forall k | 0 <= k < |runs| ensures RestartDone(hc, restarts, dir, ls, pick, runs + [m], k, results[k], hs[k]) {
      TabuChainSnoc(hc.tabu, runs, m, k);
      assert (runs + [m])[k] == runs[k];
    }
  }

  /** A restart that fails leaves the earlier restarts as they were and is
      itself a greedy run. */
  lemma RestartFailed(hc: HillClimb, restarts: seq<Dag>, dir: Direction, ls: Oracle,
                      pick: (nat, nat) -> seq<Var>, runs: seq<seq<Scored>>,
                      results: seq<(Dag, real)>, hs: seq<seq<real>>, tabu: seq<Operation>, moves: seq<Scored>)
    requires RestartsSoFar(hc, restarts, dir, ls, pick, runs, results, hs, tabu)
    requires |runs| <= |restarts|
    requires GreedyRun(StartOf(hc, restarts, |runs|), tabu, dir, ls, hc.maxIter, pick, |runs|, moves)
    ensures TabuChain(hc.tabu, runs + [moves], |runs|) == tabu
    ensures forall k :: 0 <= k < |runs| + 1 ==> RestartRun(hc, restarts, dir, ls, pick, runs + [moves], k)
  {
    var runs' := runs + [moves];
    RestartsSnoc(hc, restarts, dir, ls, pick, runs, moves, results, hs);
    TabuChainSnoc(hc.tabu, runs, moves, |runs|);
    assert runs'[|runs|] == moves;
    forall k | 0 <= k < |runs| ensures RestartRun(hc, restarts, dir, ls, pick, runs', k) {
      assert RestartDone(hc, restarts, dir, ls, pick, runs', k, results[k], hs[k]);
    }
  }

  /** A blocked run, appended as the last run, is blocked with the tabu
      list the earlier runs left, and fails with the same error. */
  lemma BlockedLast(hc: HillClimb, restarts: seq<Dag>, ls: Oracle, pick: (nat, nat) -> seq<Var>,
                    runs: seq<seq<Scored>>, moves: seq<Scored>, e: Error)
    requires |runs| <= |restarts|
    requires Blocked(StartOf(hc, restarts, |runs|), TabuChain(hc.tabu, runs, |runs|), ls, hc.maxIter, pick, |runs|, moves)
    requires e == StuckError(StartOf(hc, restarts, |runs|), pick(|runs|, |moves|))
    ensures LastFailed(hc, restarts, ls, pick, runs + [moves], e)
  {
    TabuChainSnoc(hc.tabu, runs, moves, |runs|);
    assert (runs + [moves])[|runs|] == moves;
  }

  /** The last of runs failed: it is blocked, with the tabu list the
      earlier runs left, and e is the error it raised. */
  ghost predicate LastFailed(hc: HillClimb, restarts: seq<Dag>, ls: Oracle, pick: (nat, nat) -> seq<Var>,
                             runs: seq<seq<Scored>>, e: Error) {
    && 0 < |runs| <= |restarts| + 1
    && var i := |runs| - 1;
       && Blocked(StartOf(hc, restarts, i), TabuChain(hc.tabu, runs, i), ls, hc.maxIter, pick, i, runs[i])
       && e == StuckError(StartOf(hc, restarts, i), pick(i, |runs[i]|))
  }

  /** The score lists appended to the history sit after the old entries, in
      the order of the runs. */
  lemma HistoryAppended(hc: HillClimb, restarts: seq<Dag>, dir: Direction, ls: Oracle,
                        pick: (nat, nat) -> seq<Var>, runs: seq<seq<Scored>>,
                        results: seq<(Dag, real)>, hs: seq<seq<real>>)
    requires |results| == |hs|
    requires forall k :: 0 <= k < |results| ==> RestartDone(hc, restarts, dir, ls, pick, runs, k, results[k], hs[k])
    ensures var history := hc.history + hs;
      && |history| == |hc.history| + |hs| && history[..|hc.history|] == hc.history
      && forall k :: 0 <= k < |results| ==>
           RestartDone(hc, restarts, dir, ls, pick, runs, k, results[k], history[|hc.history| + k])
  {
    var history := hc.history + hs;
    assert history[..|hc.history|] == hc.history;
    forall k | 0 <= k < |results|
      ensures RestartDone(hc, restarts, dir, ls, pick, runs, k, results[k], history[|hc.history| + k])
    {
      assert history[|hc.history| + k] == hs[k];
    }
  }

  /** The restart just finished, appended as run i. */
  lemma RestartDoneLast(hc: HillClimb, restarts: seq<Dag>, dir: Direction, ls: Oracle,
                        pick: (nat, nat) -> seq<Var>, runs: seq<seq<Scored>>, tabu: seq<Operation>, moves: seq<Scored>)
    requires |runs| <= |restarts| && tabu == TabuChain(hc.tabu, runs, |runs|)
    requires var start := StartOf(hc, restarts, |runs|);
      && GreedyRun(start, tabu, dir, ls, hc.maxIter, pick, |runs|, moves)
      && Ended(start, tabu, dir, ls, hc.maxIter, pick, |runs|, moves)
      && IsDag(Walk(start, moves))
      && Monotone(RunningScores(TotalScore(start, ls), moves), dir)
    ensures var start := StartOf(hc, restarts, |runs|);
      var g := Walk(start, moves);
      RestartDone(hc, restarts, dir, ls, pick, runs + [moves], |runs|,
                  (g, TotalScore(g, ls)), RunningScores(TotalScore(start, ls), moves))
  {
    TabuChainSnoc(hc.tabu, runs, moves, |runs|);
    assert (runs + [moves])[|runs|] == moves;
  }

  /** A restart that ends normally extends what holds of the restarts. */
  lemma RestartAdded(hc: HillClimb, restarts: seq<Dag>, dir: Direction, ls: Oracle,
                     pick: (nat, nat) -> seq<Var>, runs: seq<seq<Scored>>,
                     results: seq<(Dag, real)>, hs: seq<seq<real>>, tabu: seq<Operation>, moves: seq<Scored>,
                     result: (Dag, real), h: seq<real>)
    requires RestartsSoFar(hc, restarts, dir, ls, pick, runs, results, hs, tabu)
    requires RestartDone(hc, restarts, dir, ls, pick, runs + [moves], |runs|, result, h)
    ensures RestartsSoFar(hc, restarts, dir, ls, pick, runs + [moves], results + [result], hs + [h],
                          TabuAfter(tabu, moves))
  {
    var runs' := runs + [moves];
    var results' := results + [result];
    var hs' := hs + [h];
    RestartsSnoc(hc, restarts, dir, ls, pick, runs, moves, results, hs);
    forall k | 0 <= k < |runs'| ensures RestartDone(hc, restarts, dir, ls, pick, runs', k, results'[k], hs'[k]) {
      if k < |runs| {
        assert results'[k] == results[k] && hs'[k] == hs[k];
      }
    }
    TabuChainNext(hc.tabu, runs, moves);
  }

  /** The tabu list after one more run is that run's tabu list. */
  lemma TabuChainNext(tabu0: seq<Operation>, runs: seq<seq<Scored>>, moves: seq<Scored>)
    ensures TabuChain(tabu0, runs + [moves], |runs| + 1) == TabuAfter(TabuChain(tabu0, runs, |runs|), moves)
  {
    TabuChainSnoc(tabu0, runs, moves, |runs|);
    assert (runs + [moves])[|runs|] == moves;
  }

  /** The restart loop of climb: a greedy run from the searcher's DAG and
      then from each random DAG, the tabu list carried over from one run to
      the next. Returns the final tabu list and every run's score list, every
      run's (DAG, score), and the moves of every run, the failed one last. */
  method RunRestarts(hc: HillClimb, dir: Direction, ls: Oracle, restarts: seq<Dag>, pick: (nat, nat) -> seq<Var>)
    returns (r: Result<(seq<Operation>, seq<seq<real>>)>, results: seq<(Dag, real)>, runs: seq<seq<Scored>>)
    requires hc.restart <= |restarts| + 1
    requires IsDag(hc.dag) && forall k :: 0 <= k < |restarts| ==> IsDag(restarts[k])
    ensures |runs| <= hc.restart
    ensures forall k :: 0 <= k < |runs| ==> RestartRun(hc, restarts, dir, ls, pick, runs, k)
    ensures r.Failure? ==> LastFailed(hc, restarts, ls, pick, runs, r.error)
    ensures r.Success? ==> |runs| == hc.restart && |results| == hc.restart && |r.value.1| == hc.restart
    ensures r.Success? ==> forall k :: 0 <= k < |results| ==>
      RestartDone(hc, restarts, dir, ls, pick, runs, k, results[k], r.value.1[k])
    ensures r.Success? ==> r.value.0 == TabuChain(hc.tabu, runs, |runs|) && TabuExtends(hc.tabu, r.value.0)
  {
    var tabu := hc.tabu;
    var hs: seq<seq<real>> := [];
    results, runs := [], [];
    while |runs| < hc.restart
      invariant |runs| <= hc.restart
      invariant RestartsSoFar(hc, restarts, dir, ls, pick, runs, results, hs, tabu)
      decreases hc.restart - |runs|
    {
      var i := |runs|;
      var start := StartOf(hc, restarts, i);
      var outcome, moves := ClimbFrom(start, tabu, dir, ls, hc.maxIter, pick, i);
      if outcome.Failure? {
        RestartFailed(hc, restarts, dir, ls, pick, runs, results, hs, tabu, moves);
        BlockedLast(hc, restarts, ls, pick, runs, moves, outcome.error);
        runs := runs + [moves];
        r := Failure(outcome.error);
        return;
      }
      var g := outcome.value.0;
      RestartDoneLast(hc, restarts, dir, ls, pick, runs, tabu, moves);
      RestartAdded(hc, restarts, dir, ls, pick, runs, results, hs, tabu, moves, (g, TotalScore(g, ls)), outcome.value.2);
      hs, results, runs := hs + [outcome.value.2], results + [(g, TotalScore(g, ls))], runs + [moves];
      tabu := outcome.value.1;
    }
    RestartsSoFarRuns(hc, restarts, dir, ls, pick, runs, results, hs, tabu);
    TabuChainExtends(hc.tabu, runs, |runs|);
    r := Success((tabu, hs));
  }

  /** The DAG climb keeps: the first best result for 'up' and 'down', the
      current DAG for any other direction; with no results max and min
      fail. */
  function SelectDag(current: Dag, dir: Direction, results: seq<(Dag, real)>): (r: Result<Dag>)
    ensures r.Failure? <==> dir != Other && results == []
    ensures r.Failure? ==> r.error == NoRestart
    ensures r.Success? && dir == Other ==> r.value == current
    ensures r.Success? && dir != Other ==> r.value == results[FirstBest(ResultScores(results), dir)].0
    ensures r.Success? ==> r.value == current || exists k :: 0 <= k < |results| && r.value == results[k].0
  {
    if dir == Other then Success(current)
    else if results == [] then Failure(NoRestart)
    else Success(results[FirstBest(ResultScores(results), dir)].0)
  }

  /** HillClimb.climb: the restart loop, every run's score list appended to
      the history; then the best result by score becomes the searcher's DAG
      ('up' the first highest, 'down' the first lowest; any other direction
      climbs downhill but leaves the DAG as it was). Also returns every
      run's (DAG, score) and moves. */
  method Climb(hc: HillClimb, dir: Direction, ls: Oracle, restarts: seq<Dag>, pick: (nat, nat) -> seq<Var>)
    returns (r: Result<HillClimb>, results: seq<(Dag, real)>, runs: seq<seq<Scored>>)
    requires hc.restart <= |restarts| + 1
    requires IsDag(hc.dag) && forall k :: 0 <= k < |restarts| ==> IsDag(restarts[k])
    ensures forall k :: 0 <= k < |runs| ==> RestartRun(hc, restarts, dir, ls, pick, runs, k)
    ensures r.Failure? ==> r.error in {NoOperation, NodeNotFound, NoRestart}
    ensures r.Failure? && r.error != NoRestart ==> |runs| <= hc.restart && LastFailed(hc, restarts, ls, pick, runs, r.error)
    ensures hc.restart == 0 ==> (r.Failure? <==> dir != Other) && (r.Failure? ==> r.error == NoRestart)
    ensures r.Success? ==> |runs| == hc.restart && |results| == hc.restart && IsDag(r.value.dag)
    ensures r.Success? && dir == Other ==> r.value.dag == hc.dag
    ensures r.Success? && dir != Other ==>
      |results| > 0 && r.value.dag == results[FirstBest(ResultScores(results), dir)].0
    ensures r.Success? ==> |r.value.history| == |hc.history| + hc.restart
    ensures r.Success? ==> r.value.history[..|hc.history|] == hc.history
    ensures r.Success? ==> forall k :: 0 <= k < |results| ==>
      RestartDone(hc, restarts, dir, ls, pick, runs, k, results[k], r.value.history[|hc.history| + k])
    ensures r.Success? ==> r.value.tabu == TabuChain(hc.tabu, runs, |runs|) && TabuExtends(hc.tabu, r.value.tabu)
    ensures r.Success? ==> r.value.(dag := hc.dag, tabu := hc.tabu, history := hc.history) == hc
  {
    var runsOutcome;
    runsOutcome, results, runs := RunRestarts(hc, dir, ls, restarts, pick);
    if runsOutcome.Failure? {
      r := Failure(runsOutcome.error);
      return;
    }
    var tabu, hs := runsOutcome.value.0, runsOutcome.value.1;
    var history := hc.history + hs;
    HistoryAppended(hc, restarts, dir, ls, pick, runs, results, hs);
    var selected := SelectDag(hc.dag, dir, results);
    if selected.Failure? {
      r := Failure(NoRestart);
      return;
    }
    var dag := selected.value;
    r := Success(hc.(dag := dag, tabu := tabu, history := history));
  }
}
