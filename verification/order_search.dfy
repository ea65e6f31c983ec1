/** dlbn/order_graph.py: exact structure search on the order graph. The
    order graph is the subset lattice of the variables; each edge U -> U+{x}
    is labelled with the best parents of x among U and their local score;
    the shortest path from the empty state to the full state fixes an
    ordering, and the labels along it give the parents of every variable.
    The parent choice per edge is made on a ParentGraph, the subset lattice
    of the candidate parents, labelled with the local scores. */
module OrderSearch {
  import opened Base
  import opened Paths
  import opened Lattice
  import opened ShortestOrder
  import opened DirectGraph

  /** The attributes of an order-graph edge: none after generation; cost
      and optimal parents after add_cost. */
  datatype Label = Unlabelled | Labelled(cost: real, optimalParents: set<Var>)

  datatype OrderGraph = OrderGraph(
    variables: seq<Var>,
    nodes: set<State>,
    edges: map<Step, Label>,
    shortestPath: Option<seq<State>>)

  /** OrderGraph(variables): no states, no edges, no path yet. */
  function NewOrderGraph(variables: seq<Var>): OrderGraph {
    OrderGraph(variables, {}, map[], None)
  }

  /** The graph as its own generation leaves it: every lattice state and
      lattice edge present, and nothing else. */
  ghost predicate IsGenerated(og: OrderGraph) {
    && Distinct(og.variables)
    && og.nodes == LatticeNodes(og.variables)
    && og.edges.Keys == LatticeEdges(og.variables)
  }

  /** The states an order graph can be in between its operations: fresh, or
      generated. */
  ghost predicate Valid(og: OrderGraph) {
    && Distinct(og.variables)
    && ((og.nodes == {} && og.edges == map[]) || IsGenerated(og))
  }

  // ---------------------------------------------------------------------
  // generate_order_graph

  /** OrderGraph.generate_order_graph: adds the prefix chain of every
      permutation; an edge that already exists keeps its attributes. */
  function Generate(og: OrderGraph): (r: OrderGraph)
    ensures r.variables == og.variables && r.shortestPath == og.shortestPath
    ensures r.nodes == og.nodes + LatticeNodes(og.variables)
    ensures r.edges.Keys == og.edges.Keys + LatticeEdges(og.variables)
    ensures forall e :: e in og.edges ==> r.edges[e] == og.edges[e]
    ensures forall e :: e in r.edges && e !in og.edges ==> r.edges[e] == Unlabelled
  {
    og.(nodes := og.nodes + LatticeNodes(og.variables),
        edges := og.edges + map e | e in LatticeEdges(og.variables) && e !in og.edges :: Unlabelled)
  }

  /** A generated order graph over distinct variables has a state for
      every subset of the variables and an edge U -> U+{x} for every x
      outside U, and no other state or edge. */
  lemma GenerateShape(variables: seq<Var>)
    requires Distinct(variables)
    ensures IsGenerated(Generate(NewOrderGraph(variables)))
    ensures forall U :: U in Generate(NewOrderGraph(variables)).nodes <==> U <= Elems(variables)
    ensures forall U, W :: (U, W) in Generate(NewOrderGraph(variables)).edges
              <==> U <= Elems(variables) && IsExtension(variables, U, W)
  {
    var g := Generate(NewOrderGraph(variables));
    assert g.nodes == LatticeNodes(variables);
    assert g.edges.Keys == LatticeEdges(variables);
    forall U ensures U in g.nodes <==> U <= Elems(variables) {
      NodesAreSubsets(variables, U);
    }
    forall U, W ensures (U, W) in g.edges <==> U <= Elems(variables) && IsExtension(variables, U, W) {
      EdgesAreExtensions(variables, U, W);
    }
  }

  /** A freshly generated order graph over n distinct variables has 2^n
      states (the docstring's 2^n-1 leaves out the empty state) and no edge
      labels yet. */
  lemma GenerateCount(variables: seq<Var>)
    requires Distinct(variables)
    ensures |Generate(NewOrderGraph(variables)).nodes| == Pow2(|variables|)
    ensures forall e :: e in Generate(NewOrderGraph(variables)).edges ==>
              Generate(NewOrderGraph(variables)).edges[e] == Unlabelled
  {
    var g := Generate(NewOrderGraph(variables));
    assert g.nodes == LatticeNodes(variables);
    NodeCount(variables);
  }

  /** Generation keeps the graph valid and running it again changes
      nothing. */
  lemma GenerateIdempotent(og: OrderGraph)
    requires Valid(og)
    ensures IsGenerated(Generate(og))
    ensures Generate(Generate(og)) == Generate(og)
  {
    var g := Generate(og);
    if og.nodes == {} {
      assert g.nodes == LatticeNodes(og.variables);
    }
    assert Generate(g).edges == g.edges;
  }

  // ---------------------------------------------------------------------
  // ParentGraph

  /** A parent graph: the subset lattice of the potential parents of one
      variable; each edge, once costed, carries the local score of the
      variable given the edge's target state as its parent set. */
  datatype ParentGraph = ParentGraph(
    variable: Var,
    potentialParents: seq<Var>,
    nodes: set<State>,
    costs: map<Step, Option<real>>)

  function NewParentGraph(variable: Var, potentialParents: seq<Var>): ParentGraph {
    ParentGraph(variable, potentialParents, {}, map[])
  }

  /** generate_order_graph inherited by ParentGraph, over the potential
      parents. */
  function GenerateParentGraph(pg: ParentGraph): (r: ParentGraph)
    ensures r.variable == pg.variable && r.potentialParents == pg.potentialParents
    ensures r.nodes == pg.nodes + LatticeNodes(pg.potentialParents)
    ensures r.costs.Keys == pg.costs.Keys + LatticeEdges(pg.potentialParents)
    ensures forall e :: e in pg.costs ==> r.costs[e] == pg.costs[e]
  {
    pg.(nodes := pg.nodes + LatticeNodes(pg.potentialParents),
        costs := pg.costs + map e | e in LatticeEdges(pg.potentialParents) && e !in pg.costs :: None)
  }

  /** ParentGraph.add_cost: (re)generates the lattice, then costs every
      edge with the local score of the variable given the edge's target. */
  function AddParentCosts(pg: ParentGraph, ls: Oracle): (r: ParentGraph)
    ensures r.variable == pg.variable && r.potentialParents == pg.potentialParents
    ensures r.costs.Keys == pg.costs.Keys + LatticeEdges(pg.potentialParents)
    ensures forall e :: e in r.costs ==> r.costs[e] == Some(ls(pg.variable, e.1))
  {
    var g := GenerateParentGraph(pg);
    g.(costs := map e | e in g.costs :: Some(ls(pg.variable, e.1)))
  }

  /** ParentGraph.find_optimal_parents: the target state and cost of a
      cheapest edge. An edge without a cost is a KeyError in
      find_optimal_parents. */
  ghost function FindOptimalParents(pg: ParentGraph): (r: Result<(State, real)>)
    ensures |pg.costs| == 0 ==> r == Failure(EmptyParentGraph)
    ensures r.Success? <==> |pg.costs| > 0 && forall e :: e in pg.costs ==> pg.costs[e].Some?
    ensures r.Failure? && |pg.costs| > 0 ==> r.error == MissingCost
    ensures r.Success? ==> exists e :: e in pg.costs && e.1 == r.value.0 && pg.costs[e] == Some(r.value.1)
    ensures r.Success? ==> forall e :: e in pg.costs ==> r.value.1 <= pg.costs[e].value
  {
    if |pg.costs| == 0 then Failure(EmptyParentGraph)
    else if exists e :: e in pg.costs && pg.costs[e].None? then Failure(MissingCost)
    else
      var m := map e | e in pg.costs :: pg.costs[e].value;
      assert m.Keys == pg.costs.Keys;
      var e := ArgMin(m);
      Success((e.1, m[e]))
  }

  /** The parents a parent graph built over the set U picks for x: the
      pipeline add_cost runs for a non-empty state. */
  ghost function ChooseParents(x: Var, U: State, ls: Oracle): Result<(State, real)> {
    var pg := GenerateParentGraph(NewParentGraph(x, SetToSeq(U)));
    FindOptimalParents(AddParentCosts(pg, ls))
  }

  /** The targets of a parent graph's edges are the non-empty subsets of the
      potential parents: the empty parent set is never a candidate. */
  lemma ParentTargets(pp: seq<Var>, Q: State)
    requires Distinct(pp)
    ensures (exists e :: e in LatticeEdges(pp) && e.1 == Q) <==> Q != {} && Q <= Elems(pp)
  {
    if exists e :: e in LatticeEdges(pp) && e.1 == Q {
      var e :| e in LatticeEdges(pp) && e.1 == Q;
      EdgesAreExtensions(pp, e.0, e.1);
    }
    if Q != {} && Q <= Elems(pp) {
      var y :| y in Q;
      assert Q == (Q - {y}) + {y};
      EdgesAreExtensions(pp, Q - {y}, Q);
      assert (Q - {y}, Q) in LatticeEdges(pp);
    }
  }

  /** For a non-empty U the parent graph picks a non-empty subset of U whose
      local score is least among the non-empty subsets of U. */
  lemma ChooseParentsBest(x: Var, U: State, ls: Oracle)
    requires U != {}
    ensures ChooseParents(x, U, ls).Success?
    ensures ChooseParents(x, U, ls).value.0 != {} && ChooseParents(x, U, ls).value.0 <= U
    ensures ChooseParents(x, U, ls).value.1 == ls(x, ChooseParents(x, U, ls).value.0)
    ensures forall Q :: Q != {} && Q <= U ==> ChooseParents(x, U, ls).value.1 <= ls(x, Q)
  {
    var pp := SetToSeq(U);
    var pg := AddParentCosts(GenerateParentGraph(NewParentGraph(x, pp)), ls);
    assert pg.costs.Keys == LatticeEdges(pp);
    var y :| y in U;
    ParentTargets(pp, {y});
    assert |pg.costs| > 0;
    var r := FindOptimalParents(pg);
    assert r.Success?;
    var e :| e in pg.costs && e.1 == r.value.0 && pg.costs[e] == Some(r.value.1);
    ParentTargets(pp, e.1);
    forall Q | Q != {} && Q <= U ensures r.value.1 <= ls(x, Q) {
      ParentTargets(pp, Q);
      var e' :| e' in LatticeEdges(pp) && e'.1 == Q;
      assert pg.costs[e'] == Some(ls(x, Q));
    }
  }

  // ---------------------------------------------------------------------
  // add_cost

  /** The variable an edge adds (list(v - u)[0]); none when v adds nothing
      to u, an IndexError in add_cost. */
  ghost function AddedVar(u: State, v: State): (r: Option<Var>)
    ensures r.Some? <==> v - u != {}
    ensures r.Some? ==> r.value in v - u
  {
    if v - u == {} then None else var x :| x in v - u; Some(x)
  }

  /** The label OrderGraph.add_cost puts on one edge (u, v): cost 0 and no
      parents out of the empty state; otherwise the parent graph's choice
      among u. */
  ghost function LabelAsWritten(ls: Oracle, e: Step): Result<Label> {
    match AddedVar(e.0, e.1)
    case None => Failure(NoNewVariable)
    case Some(x) =>
      if e.0 == {} then Success(Labelled(0.0, {}))
      else
        var best :- ChooseParents(x, e.0, ls);
        Success(Labelled(best.1, best.0))
  }

  /** Labels every edge with labelOf(edge); fails, as add_cost does, when the
      graph has no edges or some edge cannot be labelled. */
  ghost function LabelEdges(og: OrderGraph, labelOf: Step -> Result<Label>): (r: Result<OrderGraph>)
    ensures |og.edges| == 0 ==> r == Failure(NotGenerated)
    ensures r.Success? <==> |og.edges| > 0 && forall e :: e in og.edges ==> labelOf(e).Success?
    ensures r.Success? ==> r.value.variables == og.variables && r.value.nodes == og.nodes
    ensures r.Success? ==> r.value.shortestPath == og.shortestPath
    ensures r.Success? ==> r.value.edges.Keys == og.edges.Keys
    ensures r.Success? ==> forall e :: e in og.edges ==> r.value.edges[e] == labelOf(e).value
  {
    if |og.edges| == 0 then Failure(NotGenerated)
    else if exists e :: e in og.edges && labelOf(e).Failure? then
      var e :| e in og.edges && labelOf(e).Failure?;
      Failure(labelOf(e).error)
    else
      Success(og.(edges := map e | e in og.edges :: labelOf(e).value))
  }

  /** OrderGraph.add_cost. */
  ghost function AddCost(og: OrderGraph, ls: Oracle): Result<OrderGraph> {
    LabelEdges(og, e => LabelAsWritten(ls, e))
  }

  lemma AddedVarOf(U: State, x: Var)
    requires x !in U
    ensures AddedVar(U, U + {x}) == Some(x)
  {
    assert (U + {x}) - U == {x};
  }

  /** The label add_cost puts on the edge U -> U+{x}: cost 0 and no parents
      when U is empty; otherwise a non-empty parent set P within U whose
      local score ls(x, P) is the cost and is least over the non-empty
      subsets of U. */
  lemma LabelAsWrittenStep(ls: Oracle, U: State, x: Var)
    requires x !in U
    ensures LabelAsWritten(ls, (U, U + {x})).Success?
    ensures U == {} ==> LabelAsWritten(ls, (U, U + {x})).value == Labelled(0.0, {})
    ensures U != {} ==>
              var l := LabelAsWritten(ls, (U, U + {x})).value;
              && l.Labelled? && l.optimalParents != {} && l.optimalParents <= U
              && l.cost == ls(x, l.optimalParents)
              && forall Q :: Q != {} && Q <= U ==> l.cost <= ls(x, Q)
  {
    AddedVarOf(U, x);
    if U != {} {
      ChooseParentsBest(x, U, ls);
    }
  }

  /** On a generated graph over at least one variable add_cost succeeds and
      labels every edge as LabelAsWrittenStep describes. */
  lemma AddCostLabels(og: OrderGraph, ls: Oracle)
    requires IsGenerated(og) && |og.variables| > 0
    ensures AddCost(og, ls).Success?
    ensures forall e :: e in og.edges ==> AddCost(og, ls).value.edges[e] == LabelAsWritten(ls, e).value
  {
    var vs := og.variables;
    var v0 := vs[0];
    EdgesAreExtensions(vs, {}, {v0});
    assert ({}, {} + {v0}) in og.edges;
    assert |og.edges| > 0;
    forall e | e in og.edges ensures LabelAsWritten(ls, e).Success? {
      EdgesAreExtensions(vs, e.0, e.1);
      var x :| x in vs && x !in e.0 && e.1 == e.0 + {x};
      LabelAsWrittenStep(ls, e.0, x);
    }
  }

  // ---------------------------------------------------------------------
  // find_shortest_path

  /** The Dijkstra weight of an edge: its cost, or 1 when it has none
      (networkx's default for a missing weight attribute). */
  function LabelWeight(l: Label): real {
    match l
    case Unlabelled => 1.0
    case Labelled(c, _) => c
  }

  /** The weight of the lattice step that adds x to U. */
  function StepWeight(og: OrderGraph, U: State, x: Var): real {
    if (U, U + {x}) in og.edges then LabelWeight(og.edges[(U, U + {x})]) else 0.0
  }

  function Weights(og: OrderGraph): StepCost {
    (U, x) => StepWeight(og, U, x)
  }

  /** No edge weighs less than 0, which Dijkstra's algorithm needs for the
      path it settles on to be a least-weight one. */
  predicate NonNegativeWeights(og: OrderGraph) {
    forall e :: e in og.edges ==> LabelWeight(og.edges[e]) >= 0.0
  }

  /** p is a path of graph edges from the empty state to the full state. */
  ghost predicate IsGraphPath(og: OrderGraph, p: seq<State>) {
    && |p| >= 1 && p[0] == {} && p[|p| - 1] == Elems(og.variables)
    && forall k :: 0 <= k < |p| - 1 ==> (p[k], p[k + 1]) in og.edges
  }

  /** The total weight of the edges along p. */
  function PathWeight(og: OrderGraph, p: seq<State>): real
    requires forall k :: 0 <= k < |p| - 1 ==> (p[k], p[k + 1]) in og.edges
  {
    if |p| <= 1 then 0.0
    else PathWeight(og, p[..|p| - 1]) + LabelWeight(og.edges[(p[|p| - 2], p[|p| - 1])])
  }

  /** The lattice path of an ordering of some variables is made of graph
      edges, and its weight is the ordering's cost. */
  lemma {:induction false} OrderPathWeight(og: OrderGraph, q: seq<Var>)
    requires IsGenerated(og) && Distinct(q) && Elems(q) <= Elems(og.variables)
    ensures forall k :: 0 <= k < |StatesOf(q)| - 1 ==> (StatesOf(q)[k], StatesOf(q)[k + 1]) in og.edges
    ensures PathWeight(og, StatesOf(q)) == PathCost(q, Weights(og))
  {
    var p := StatesOf(q);
    forall k | 0 <= k < |p| - 1 ensures (p[k], p[k + 1]) in og.edges {
      StatesOfSteps(og.variables, q, k);
    }
    if q != [] {
      var q' := q[..|q| - 1];
      var x := q[|q| - 1];
      assert q == q' + [x];
      SnocFacts(q', x);
      assert Elems(q') <= Elems(og.variables);
      OrderPathWeight(og, q');
      StatesOfSnoc(q', x);
      assert p[..|p| - 1] == StatesOf(q');
      assert p[|p| - 2] == Elems(q') && p[|p| - 1] == Elems(q') + {x};
    }
  }

  /** Every path of graph edges from the empty state is the lattice path of
      an ordering, with the same cost. */
  lemma {:induction false} GraphPathOrder(og: OrderGraph, p: seq<State>) returns (q: seq<Var>)
    requires IsGenerated(og) && |p| >= 1 && p[0] == {}
    requires forall k :: 0 <= k < |p| - 1 ==> (p[k], p[k + 1]) in og.edges
    ensures Distinct(q) && Elems(q) == p[|p| - 1] && StatesOf(q) == p
    ensures PathWeight(og, p) == PathCost(q, Weights(og))
  {
    if |p| == 1 {
      q := [];
      assert q[..0] == [] && Elems(q) == {};
      assert StatesOf(q)[0] == p[0];
    } else {
      var p' := p[..|p| - 1];
      var q' := GraphPathOrder(og, p');
      var U, W := p[|p| - 2], p[|p| - 1];
      assert (U, W) in og.edges;
      EdgesAreExtensions(og.variables, U, W);
      var x :| x in og.variables && x !in U && W == U + {x};
      q := q' + [x];
      SnocFacts(q', x);
      StatesOfSnoc(q', x);
      SplitLast(p);
      assert U == Elems(q') by {
        assert p'[|p'| - 1] == U;
      }
      assert StatesOf(q) == p;
      assert Elems(q) <= Elems(og.variables);
      OrderPathWeight(og, q);
    }
  }

  /** OrderGraph.find_shortest_path: a least-weight path from the empty
      state to the full state, stored on the graph; NodeNotFound before the
      graph is generated. The path is promised least-weight only when no
      edge weighs less than 0. */
  function FindShortestPath(og: OrderGraph): (r: Result<OrderGraph>)
    requires Valid(og)
    ensures r.Success? <==> IsGenerated(og)
    ensures r.Failure? ==> r.error == NodeNotFound
    ensures r.Success? ==> r.value == og.(shortestPath := r.value.shortestPath)
    ensures r.Success? ==> r.value.shortestPath.Some? && IsGraphPath(og, r.value.shortestPath.value)
    ensures r.Success? && NonNegativeWeights(og) ==> forall p :: IsGraphPath(og, p) ==>
              PathWeight(og, r.value.shortestPath.value) <= PathWeight(og, p)
  {
    if {} !in og.nodes then
      assert !IsGenerated(og) by {
        if IsGenerated(og) { NodesAreSubsets(og.variables, {}); }
      }
      Failure(NodeNotFound)
    else
      var vs := og.variables;
      var best := BestOrder(vs, Elems(vs), Weights(og));
      var path := StatesOf(best.1);
      OrderPathWeight(og, best.1);
      assert best.1[..|best.1|] == best.1;
      assert forall p :: IsGraphPath(og, p) ==> PathWeight(og, path) <= PathWeight(og, p) by {
        forall p | IsGraphPath(og, p) ensures PathWeight(og, path) <= PathWeight(og, p) {
          var q := GraphPathOrder(og, p);
        }
      }
      Success(og.(shortestPath := Some(path)))
  }

  // ---------------------------------------------------------------------
  // optimal_result

  /** Adds an edge from every parent in ps to x. */
  function AddParents(g: Dag, ps: seq<Var>, x: Var): (r: Dag)
    ensures r.edges == g.edges + set y | y in ps :: (y, x)
    ensures WellFormed(g) ==> WellFormed(r)
    decreases |ps|
  {
    if ps == [] then g
    else AddParents(AddEdge(g, ps[0], x), ps[1..], x)
  }

  /** The DAG edges the k-th step of path p contributes. */
  ghost function StepEdges(og: OrderGraph, p: seq<State>, k: nat): set<Edge>
    requires k < |p| - 1
  {
    var e := (p[k], p[k + 1]);
    if e in og.edges && og.edges[e].Labelled? && AddedVar(p[k], p[k + 1]).Some? then
      set y | y in og.edges[e].optimalParents :: (y, AddedVar(p[k], p[k + 1]).value)
    else {}
  }

  /** Whether every step of p from k on has a labelled edge and adds a
      variable. */
  ghost predicate StepsReady(og: OrderGraph, p: seq<State>, k: nat) {
    forall j :: k <= j < |p| - 1 ==>
      && (p[j], p[j + 1]) in og.edges && og.edges[(p[j], p[j + 1])].Labelled?
      && AddedVar(p[j], p[j + 1]).Some?
  }

  /** The loop of optimal_result from step k on: for each step, an edge from
      each optimal parent to the added variable. */
  ghost function CollectParents(og: OrderGraph, p: seq<State>, k: nat, g: Dag): (r: Result<Dag>)
    requires k < |p|
    ensures r.Success? <==> StepsReady(og, p, k)
    ensures r.Failure? ==> r.error == MissingCost || r.error == NoNewVariable
    ensures r.Success? ==> forall e :: e in r.value.edges <==>
              e in g.edges || exists j :: k <= j < |p| - 1 && e in StepEdges(og, p, j)
    ensures r.Success? && WellFormed(g) ==> WellFormed(r.value)
    decreases |p| - k
  {
    if k == |p| - 1 then Success(g)
    else
      var e := (p[k], p[k + 1]);
      if e !in og.edges || og.edges[e].Unlabelled? then Failure(MissingCost)
      else
        match AddedVar(p[k], p[k + 1])
        case None => Failure(NoNewVariable)
        case Some(x) =>
          var P := og.edges[e].optimalParents;
          var ps := SetToSeq(P);
          var g' := AddParents(g, ps, x);
          assert (set y | y in ps :: (y, x)) == set y | y in P :: (y, x) by {
            assert Elems(ps) == P;
          }
          assert g'.edges == g.edges + StepEdges(og, p, k);
          var r := CollectParents(og, p, k + 1, g');
          StepsReadyCons(og, p, k);
          if r.Success? then
            EdgesShift(og, p, k, g.edges, r.value.edges);
            r
          else r
  }

  lemma StepsReadyCons(og: OrderGraph, p: seq<State>, k: nat)
    requires k < |p| - 1
    ensures StepsReady(og, p, k) <==>
      && (p[k], p[k + 1]) in og.edges && og.edges[(p[k], p[k + 1])].Labelled?
      && AddedVar(p[k], p[k + 1]).Some?
      && StepsReady(og, p, k + 1)
  {
  }

  /** The edges collected from step k on are those of step k and those
      collected from step k + 1 on. */
  lemma EdgesShift(og: OrderGraph, p: seq<State>, k: nat, A: set<Edge>, B: set<Edge>)
    requires k < |p| - 1
    requires forall e :: e in B <==> e in A + StepEdges(og, p, k) || exists j :: k + 1 <= j < |p| - 1 && e in StepEdges(og, p, j)
    ensures forall e :: e in B <==> e in A || exists j :: k <= j < |p| - 1 && e in StepEdges(og, p, j)
  {
    forall e ensures e in B <==> e in A || exists j :: k <= j < |p| - 1 && e in StepEdges(og, p, j) {
      if exists j :: k <= j < |p| - 1 && e in StepEdges(og, p, j) {
        var j :| k <= j < |p| - 1 && e in StepEdges(og, p, j);
        assert e in B;
      }
    }
  }

  /** OrderGraph.optimal_result: the DAG whose edges run from the optimal
      parents of every step of the shortest path to the variable the step
      adds; NotReady before a path is found. */
  ghost function OptimalResult(og: OrderGraph): (r: Result<Dag>)
    ensures r.Failure? && r.error == NotReady <==> og.shortestPath.None? || og.shortestPath.value == []
    ensures r.Success? ==> WellFormed(r.value)
  {
    if og.shortestPath.None? || og.shortestPath.value == [] then Failure(NotReady)
    else
      assert WellFormed(Dag([], {}));
      CollectParents(og, og.shortestPath.value, 0, Dag([], {}))
  }

  /** Every step of the lattice path of q is a labelled edge whose parents
      were all placed before the step's variable. */
  ghost predicate LabelsAlong(og: OrderGraph, q: seq<Var>) {
    forall k :: 0 <= k < |q| ==>
      && ChainEdge(q, k) in og.edges
      && og.edges[ChainEdge(q, k)].Labelled?
      && og.edges[ChainEdge(q, k)].optimalParents <= Elems(q[..k])
  }

  /** The parents labelled on step k of the ordering q. */
  ghost function StepParents(og: OrderGraph, q: seq<Var>, k: nat): set<Var>
    requires LabelsAlong(og, q) && k < |q|
  {
    og.edges[ChainEdge(q, k)].optimalParents
  }

  lemma StepEdgesOf(og: OrderGraph, q: seq<Var>, k: nat)
    requires Distinct(q) && LabelsAlong(og, q) && k < |q|
    ensures StepEdges(og, StatesOf(q), k) == set y | y in StepParents(og, q, k) :: (y, q[k])
  {
    var p := StatesOf(q);
    PrefixGrows(q, k);
    PrefixFresh(q, k);
    AddedVarOf(p[k], q[k]);
    assert ChainEdge(q, k) == (p[k], p[k + 1]);
  }

  lemma ResultSucceeds(og: OrderGraph, q: seq<Var>)
    requires Distinct(q) && og.shortestPath == Some(StatesOf(q)) && LabelsAlong(og, q)
    ensures OptimalResult(og).Success?
  {
    var p := StatesOf(q);
    forall k | 0 <= k < |q| ensures ChainEdge(q, k) == (p[k], p[k + 1]) && AddedVar(p[k], p[k + 1]) == Some(q[k]) {
      PrefixGrows(q, k);
      PrefixFresh(q, k);
      AddedVarOf(p[k], q[k]);
    }
    assert StepsReady(og, p, 0);
  }

  /** The edges of the result DAG for a stored path that is the lattice path
      of q: (y, q[k]) for every parent y labelled on step k, and no other. */
  lemma ResultEdges(og: OrderGraph, q: seq<Var>)
    requires Distinct(q) && og.shortestPath == Some(StatesOf(q)) && LabelsAlong(og, q)
    ensures OptimalResult(og).Success?
    ensures forall e :: e in OptimalResult(og).value.edges ==>
              exists k :: 0 <= k < |q| && e.1 == q[k] && e.0 in StepParents(og, q, k)
    ensures forall k, y :: 0 <= k < |q| && y in StepParents(og, q, k) ==>
              (y, q[k]) in OptimalResult(og).value.edges
  {
    ResultSucceeds(og, q);
    var p := StatesOf(q);
    var E := OptimalResult(og).value.edges;
    forall e | e in E
      ensures exists k :: 0 <= k < |q| && e.1 == q[k] && e.0 in StepParents(og, q, k)
    {
      var j :| 0 <= j < |p| - 1 && e in StepEdges(og, p, j);
      StepEdgesOf(og, q, j);
    }
    forall k, y | 0 <= k < |q| && y in StepParents(og, q, k) ensures (y, q[k]) in E {
      StepEdgesOf(og, q, k);
      assert 0 <= k < |p| - 1 && (y, q[k]) in StepEdges(og, p, k);
    }
  }

  /** When the stored path is the lattice path of an ordering q and every
      step's label names parents among the variables placed before it, the
      result is a DAG over q in which the parents of q[k] are exactly the
      parents labelled on step k. */
  lemma OptimalResultParents(og: OrderGraph, q: seq<Var>)
    requires Distinct(q) && og.shortestPath == Some(StatesOf(q)) && LabelsAlong(og, q)
    ensures OptimalResult(og).Success?
    ensures Acyclic(OptimalResult(og).value.edges) && Closed(q, OptimalResult(og).value.edges)
    ensures forall k :: 0 <= k < |q| ==> Parents(OptimalResult(og).value.edges, q[k]) == StepParents(og, q, k)
  {
    ResultEdges(og, q);
    var E := OptimalResult(og).value.edges;
    ResultTopoOrder(og, q);
    TopoOrderAcyclic(q, E);
    ResultParentsExact(og, q);
  }

  lemma ResultTopoOrder(og: OrderGraph, q: seq<Var>)
    requires Distinct(q) && og.shortestPath == Some(StatesOf(q)) && LabelsAlong(og, q)
    requires OptimalResult(og).Success?
    requires forall e :: e in OptimalResult(og).value.edges ==>
              exists k :: 0 <= k < |q| && e.1 == q[k] && e.0 in StepParents(og, q, k)
    ensures TopoOrder(q, OptimalResult(og).value.edges)
  {
    var E := OptimalResult(og).value.edges;
    forall e | e in E
      ensures exists j, i :: 0 <= i < j < |q| && e == (q[i], q[j])
    {
      var j :| 0 <= j < |q| && e.1 == q[j] && e.0 in StepParents(og, q, j);
      EdgeForward(og, q, e, j);
    }
    forall a, b | 0 <= a < |q| && 0 <= b < |q| && (q[a], q[b]) in E ensures a < b {
      var j, i :| 0 <= i < j < |q| && (q[a], q[b]) == (q[i], q[j]);
      assert a == i && b == j;
    }
  }

  /** An edge into q[j] from a parent labelled on step j comes from an
      earlier variable of q. */
  lemma EdgeForward(og: OrderGraph, q: seq<Var>, e: Edge, j: nat)
    requires LabelsAlong(og, q) && j < |q| && e.1 == q[j] && e.0 in StepParents(og, q, j)
    ensures exists i :: 0 <= i < j && e == (q[i], q[j])
  {
    assert e.0 in Elems(q[..j]);
    var i :| 0 <= i < j && q[..j][i] == e.0;
    assert e == (q[i], q[j]);
  }

  lemma ResultParentsExact(og: OrderGraph, q: seq<Var>)
    requires Distinct(q) && LabelsAlong(og, q) && OptimalResult(og).Success?
    requires forall e :: e in OptimalResult(og).value.edges ==>
              exists k :: 0 <= k < |q| && e.1 == q[k] && e.0 in StepParents(og, q, k)
    requires forall k, y :: 0 <= k < |q| && y in StepParents(og, q, k) ==>
              (y, q[k]) in OptimalResult(og).value.edges
    ensures forall k :: 0 <= k < |q| ==> Parents(OptimalResult(og).value.edges, q[k]) == StepParents(og, q, k)
  {
    var E := OptimalResult(og).value.edges;
    forall k | 0 <= k < |q| ensures Parents(E, q[k]) == StepParents(og, q, k) {
      forall y | (y, q[k]) in E ensures y in StepParents(og, q, k) {
        var j :| 0 <= j < |q| && q[k] == q[j] && y in StepParents(og, q, j);
        assert j == k;
      }
    }
  }

}
