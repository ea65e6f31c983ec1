/** The whole order-graph search (generate, add_cost, find_shortest_path,
    optimal_result) and what it finds. As written, add_cost never offers
    the empty parent set for a non-empty state and charges 0 for the first
    variable, so the result need not be a best-scoring DAG. With each edge
    U -> U+{x} labelled by the least local score of x over every parent set
    within U, the empty one included, the same search returns a DAG whose
    score is least among all DAGs over the variables. */
module ExactSearch {
  import opened Base
  import opened Paths
  import opened Lattice
  import opened ShortestOrder
  import opened DirectGraph
  import opened OrderSearch

  // ---------------------------------------------------------------------
  // The pipeline

  /** generate_order_graph, a labelling of every edge, find_shortest_path
      and optimal_result, in the order the __main__ block of dlbn/order_graph.py runs
      them. */
  ghost function SearchWith(variables: seq<Var>, labelOf: Step -> Result<Label>): Result<Dag>
    requires Distinct(variables)
  {
    var og := Generate(NewOrderGraph(variables));
    GenerateShape(variables);
    var labelled :- LabelEdges(og, labelOf);
    var solved :- FindShortestPath(labelled);
    OptimalResult(solved)
  }

  /** The search as the __main__ block of dlbn/order_graph.py runs it,
      with add_cost's labelling. */
  ghost function SearchAsWritten(variables: seq<Var>, ls: Oracle): Result<Dag>
    requires Distinct(variables)
  {
    SearchWith(variables, e => LabelAsWritten(ls, e))
  }

  /** The label an exact search needs on U -> U+{x}: the least local score
      of x over every parent set within U, the empty set included. */
  ghost function LabelExact(ls: Oracle, e: Step): Result<Label> {
    match AddedVar(e.0, e.1)
    case None => Failure(NoNewVariable)
    case Some(x) =>
      if e.0 == {} then Success(Labelled(ls(x, {}), {}))
      else
        var best :- ChooseParents(x, e.0, ls);
        if ls(x, {}) <= best.1 then Success(Labelled(ls(x, {}), {}))
        else Success(Labelled(best.1, best.0))
  }

  /** The search with exact labels. */
  ghost function SearchExact(variables: seq<Var>, ls: Oracle): Result<Dag>
    requires Distinct(variables)
  {
    SearchWith(variables, e => LabelExact(ls, e))
  }

  /** The exact label of U -> U+{x} names a parent set P within U whose local
      score is the cost and is least over every subset of U. */
  lemma LabelExactStep(ls: Oracle, U: State, x: Var)
    requires x !in U
    ensures LabelExact(ls, (U, U + {x})).Success?
    ensures var l := LabelExact(ls, (U, U + {x})).value;
      && l.Labelled? && l.optimalParents <= U && l.cost == ls(x, l.optimalParents)
      && forall Q :: Q <= U ==> l.cost <= ls(x, Q)
  {
    AddedVarOf(U, x);
    if U == {} {
      assert LabelExact(ls, (U, U + {x})) == Success(Labelled(ls(x, {}), {}));
      forall Q | Q <= U ensures ls(x, {}) <= ls(x, Q) {
        assert Q == {};
      }
    } else {
      ChooseParentsBest(x, U, ls);
      var best := ChooseParents(x, U, ls).value;
      var l := if ls(x, {}) <= best.1 then Labelled(ls(x, {}), {}) else Labelled(best.1, best.0);
      assert LabelExact(ls, (U, U + {x})) == Success(l);
      forall Q | Q <= U ensures l.cost <= ls(x, Q) {
        if Q != {} {
          assert best.1 <= ls(x, Q);
        }
      }
    }
  }

  // ---------------------------------------------------------------------
  // What the pipeline returns, for any labelling

  /** Every lattice edge U -> U+{x} gets a label naming parents within U. */
  ghost predicate LabelsParentsWithin(variables: seq<Var>, labelOf: Step -> Result<Label>) {
    forall U, x {:trigger LabelWithin(labelOf, U, x)} ::
      U <= Elems(variables) && x in variables && x !in U ==> LabelWithin(labelOf, U, x)
  }

  /** The edge U -> U+{x} gets a label naming parents within U. */
  ghost predicate LabelWithin(labelOf: Step -> Result<Label>, U: State, x: Var) {
    && labelOf((U, U + {x})).Success?
    && labelOf((U, U + {x})).value.Labelled?
    && labelOf((U, U + {x})).value.optimalParents <= U
  }

  /** Every lattice edge U -> U+{x} of labelled carries its label. */
  ghost predicate CarriesLabels(variables: seq<Var>, labelOf: Step -> Result<Label>, labelled: OrderGraph) {
    forall U, x {:trigger CarriesLabel(labelOf, labelled, U, x)} ::
      U <= Elems(variables) && x in variables && x !in U ==> CarriesLabel(labelOf, labelled, U, x)
  }

  /** The edge U -> U+{x} of labelled carries its label. */
  ghost predicate CarriesLabel(labelOf: Step -> Result<Label>, labelled: OrderGraph, U: State, x: Var) {
    && (U, U + {x}) in labelled.edges
    && labelOf((U, U + {x})).Success?
    && labelled.edges[(U, U + {x})] == labelOf((U, U + {x})).value
  }

  /** Labelling preserves the generated shape. */
  lemma LabelEdgesGenerated(og: OrderGraph, labelOf: Step -> Result<Label>)
    requires IsGenerated(og) && LabelEdges(og, labelOf).Success?
    ensures IsGenerated(LabelEdges(og, labelOf).value)
  {
  }

  /** add_cost with a labelling that names parents within the source state
      succeeds on a generated graph over at least one variable, and leaves
      every lattice edge with its label. */
  lemma LabelStage(variables: seq<Var>, labelOf: Step -> Result<Label>) returns (labelled: OrderGraph)
    requires Distinct(variables) && |variables| > 0 && LabelsParentsWithin(variables, labelOf)
    ensures LabelEdges(Generate(NewOrderGraph(variables)), labelOf) == Success(labelled)
    ensures IsGenerated(labelled) && labelled.variables == variables
    ensures CarriesLabels(variables, labelOf, labelled)
  {
    var og := Generate(NewOrderGraph(variables));
    GenerateShape(variables);
    var v0 := variables[0];
    assert IsExtension(variables, {}, {} + {v0});
    assert ({}, {} + {v0}) in og.edges;
    forall e | e in og.edges ensures labelOf(e).Success? {
      var x :| x in variables && x !in e.0 && e.1 == e.0 + {x};
      assert LabelWithin(labelOf, e.0, x);
    }
    labelled := LabelEdges(og, labelOf).value;
    LabelEdgesGenerated(og, labelOf);
    forall U, x | U <= Elems(variables) && x in variables && x !in U
      ensures CarriesLabel(labelOf, labelled, U, x)
    {
      assert LabelWithin(labelOf, U, x);
      assert IsExtension(variables, U, U + {x});
      EdgesAreExtensions(variables, U, U + {x});
    }
  }

  /** Step k of an ordering of the variables is a lattice edge carrying its
      label, with parents among the variables placed before. */
  lemma ChainStepLabel(variables: seq<Var>, labelOf: Step -> Result<Label>, labelled: OrderGraph, q: seq<Var>, k: nat)
    requires LabelsParentsWithin(variables, labelOf)
    requires CarriesLabels(variables, labelOf, labelled)
    requires IsOrdering(q, Elems(variables)) && k < |q|
    ensures ChainEdge(q, k) in labelled.edges && labelOf(ChainEdge(q, k)).Success?
    ensures labelled.edges[ChainEdge(q, k)] == labelOf(ChainEdge(q, k)).value
    ensures labelOf(ChainEdge(q, k)).value.Labelled?
    ensures labelOf(ChainEdge(q, k)).value.optimalParents <= Elems(q[..k])
  {
    var U, x := Elems(q[..k]), q[k];
    PrefixGrows(q, k);
    PrefixFresh(q, k);
    assert U <= Elems(q);
    assert x in Elems(q);
    assert ChainEdge(q, k) == (U, U + {x});
    assert LabelWithin(labelOf, U, x);
    assert CarriesLabel(labelOf, labelled, U, x);
  }

  /** The search's result is optimal_result after find_shortest_path on
      the labelled graph. */
  lemma SearchStages(variables: seq<Var>, labelOf: Step -> Result<Label>, labelled: OrderGraph)
    requires Distinct(variables)
    requires LabelEdges(Generate(NewOrderGraph(variables)), labelOf) == Success(labelled)
    requires IsGenerated(labelled)
    ensures FindShortestPath(labelled).Success?
    ensures SearchWith(variables, labelOf) == OptimalResult(FindShortestPath(labelled).value)
  {
  }

  /** Over at least one variable the pipeline succeeds for a labelling that
      names parents within the source state: the result is a DAG over the
      variables in which, along a least-cost ordering q of the variables,
      the parents of q[k] are the ones labelled on step k. */
  lemma SearchOutcome(variables: seq<Var>, labelOf: Step -> Result<Label>)
    returns (labelled: OrderGraph, q: seq<Var>)
    requires Distinct(variables) && |variables| > 0 && LabelsParentsWithin(variables, labelOf)
    ensures IsGenerated(labelled) && labelled.variables == variables
    ensures CarriesLabels(variables, labelOf, labelled)
    ensures SearchWith(variables, labelOf).Success?
    ensures IsOrdering(q, Elems(variables))
    ensures NonNegativeWeights(labelled) ==>
              forall t :: IsOrdering(t, Elems(variables)) ==> PathCost(q, Weights(labelled)) <= PathCost(t, Weights(labelled))
    ensures Acyclic(SearchWith(variables, labelOf).value.edges)
    ensures Closed(q, SearchWith(variables, labelOf).value.edges)
    ensures forall k :: 0 <= k < |q| ==>
              && labelOf(ChainEdge(q, k)).Success? && labelOf(ChainEdge(q, k)).value.Labelled?
              && Parents(SearchWith(variables, labelOf).value.edges, q[k]) == labelOf(ChainEdge(q, k)).value.optimalParents
  {
    labelled, q := FoundOrdering(variables, labelOf);
    OutcomeParents(variables, labelOf, labelled, FindShortestPath(labelled).value, q);
  }

  /** The labelled graph the pipeline builds and the least-cost ordering
      its shortest path spells. */
  lemma FoundOrdering(variables: seq<Var>, labelOf: Step -> Result<Label>)
    returns (labelled: OrderGraph, q: seq<Var>)
    requires Distinct(variables) && |variables| > 0 && LabelsParentsWithin(variables, labelOf)
    ensures IsGenerated(labelled) && labelled.variables == variables
    ensures CarriesLabels(variables, labelOf, labelled)
    ensures FindShortestPath(labelled).Success?
    ensures FindShortestPath(labelled).value == labelled.(shortestPath := Some(StatesOf(q)))
    ensures SearchWith(variables, labelOf) == OptimalResult(FindShortestPath(labelled).value)
    ensures IsOrdering(q, Elems(variables))
    ensures NonNegativeWeights(labelled) ==>
              forall t :: IsOrdering(t, Elems(variables)) ==> PathCost(q, Weights(labelled)) <= PathCost(t, Weights(labelled))
  {
    labelled := LabelStage(variables, labelOf);
    SearchStages(variables, labelOf, labelled);
    var solved := FindShortestPath(labelled).value;
    var path := solved.shortestPath.value;
    q := GraphPathOrder(labelled, path);
    if NonNegativeWeights(labelled) {
      ShortestIsCheapest(labelled, path, q);
    }
  }

  /** When the path q spells weighs no more than any graph path, q costs
      no more than any ordering of the variables. */
  lemma ShortestIsCheapest(labelled: OrderGraph, path: seq<State>, q: seq<Var>)
    requires IsGenerated(labelled) && path == StatesOf(q)
    requires forall k :: 0 <= k < |path| - 1 ==> (path[k], path[k + 1]) in labelled.edges
    requires forall p :: IsGraphPath(labelled, p) ==> PathWeight(labelled, path) <= PathWeight(labelled, p)
    requires PathWeight(labelled, StatesOf(q)) == PathCost(q, Weights(labelled))
    ensures forall t :: IsOrdering(t, Elems(labelled.variables)) ==>
              PathCost(q, Weights(labelled)) <= PathCost(t, Weights(labelled))
  {
    forall t | IsOrdering(t, Elems(labelled.variables))
      ensures PathCost(q, Weights(labelled)) <= PathCost(t, Weights(labelled))
    {
      OrderPathWeight(labelled, t);
      assert t[..|t|] == t;
      assert IsGraphPath(labelled, StatesOf(t));
    }
  }

  /** Along the ordering q of the found path, the result's parents are the
      labelled ones. */
  lemma OutcomeParents(variables: seq<Var>, labelOf: Step -> Result<Label>, labelled: OrderGraph,
                       solved: OrderGraph, q: seq<Var>)
    requires LabelsParentsWithin(variables, labelOf)
    requires CarriesLabels(variables, labelOf, labelled)
    requires IsOrdering(q, Elems(variables))
    requires solved == labelled.(shortestPath := Some(StatesOf(q)))
    ensures OptimalResult(solved).Success?
    ensures Acyclic(OptimalResult(solved).value.edges)
    ensures Closed(q, OptimalResult(solved).value.edges)
    ensures forall k :: 0 <= k < |q| ==>
              && labelOf(ChainEdge(q, k)).Success? && labelOf(ChainEdge(q, k)).value.Labelled?
              && Parents(OptimalResult(solved).value.edges, q[k]) == labelOf(ChainEdge(q, k)).value.optimalParents
  {
    forall k | 0 <= k < |q|
      ensures ChainEdge(q, k) in solved.edges && labelOf(ChainEdge(q, k)).Success?
      ensures solved.edges[ChainEdge(q, k)] == labelOf(ChainEdge(q, k)).value
      ensures labelOf(ChainEdge(q, k)).value.Labelled?
      ensures labelOf(ChainEdge(q, k)).value.optimalParents <= Elems(q[..k])
    {
      ChainStepLabel(variables, labelOf, labelled, q, k);
    }
    assert LabelsAlong(solved, q);
    OptimalResultParents(solved, q);
    var G := OptimalResult(solved).value.edges;
    forall k | 0 <= k < |q| ensures Parents(G, q[k]) == labelOf(ChainEdge(q, k)).value.optimalParents {
      assert StepParents(solved, q, k) == labelOf(ChainEdge(q, k)).value.optimalParents;
    }
  }


  // ---------------------------------------------------------------------
  // Scores along an ordering

  /** The score of a DAG, summed along an ordering, is at least the path
      cost when every variable's local score is at least its step cost. */
  lemma {:induction false} SumLocalAbovePathCost(q: seq<Var>, E: set<Edge>, ls: Oracle, c: StepCost)
    requires forall k :: 0 <= k < |q| ==> c(Elems(q[..k]), q[k]) <= ls(q[k], Parents(E, q[k]))
    ensures PathCost(q, c) <= SumLocal(q, E, ls)
  {
    if q != [] {
      var q' := q[..|q| - 1];
      var x := q[|q| - 1];
      assert q == q' + [x];
      forall k | 0 <= k < |q'| ensures c(Elems(q'[..k]), q'[k]) <= ls(q'[k], Parents(E, q'[k])) {
        assert q'[..k] == q[..k];
      }
      SumLocalAbovePathCost(q', E, ls, c);
      SumLocalSnoc(q', x, E, ls);
    }
  }

  /** The same with equality. */
  lemma {:induction false} SumLocalIsPathCost(q: seq<Var>, E: set<Edge>, ls: Oracle, c: StepCost)
    requires forall k :: 0 <= k < |q| ==> c(Elems(q[..k]), q[k]) == ls(q[k], Parents(E, q[k]))
    ensures PathCost(q, c) == SumLocal(q, E, ls)
  {
    if q != [] {
      var q' := q[..|q| - 1];
      var x := q[|q| - 1];
      assert q == q' + [x];
      forall k | 0 <= k < |q'| ensures c(Elems(q'[..k]), q'[k]) == ls(q'[k], Parents(E, q'[k])) {
        assert q'[..k] == q[..k];
      }
      SumLocalIsPathCost(q', E, ls, c);
      SumLocalSnoc(q', x, E, ls);
    }
  }

  /** In a topological order of an acyclic graph over the variables, every
      node's parents come before it. */
  lemma ParentsBefore(variables: seq<Var>, E: set<Edge>, t: seq<Var>, k: nat)
    requires Closed(variables, E) && Elems(t) == Elems(variables) && TopoOrder(t, E) && k < |t|
    ensures Parents(E, t[k]) <= Elems(t[..k])
  {
    forall y | y in Parents(E, t[k]) ensures y in Elems(t[..k]) {
      assert y in Elems(t);
      var i :| 0 <= i < |t| && t[i] == y;
      assert i < k;
      assert t[..k][i] == y;
    }
  }

  // ---------------------------------------------------------------------
  // The theorem and the counterexample

  /** The exact labels seen from the search: the Dijkstra weight of the
      step that adds x to U is the least local score of x over the subsets
      of U, attained by the labelled parents. */
  ghost predicate ExactlyLabelled(variables: seq<Var>, ls: Oracle, labelled: OrderGraph) {
    forall U, x {:trigger ExactLabel(ls, labelled, U, x)} ::
      U <= Elems(variables) && x in variables && x !in U ==> ExactLabel(ls, labelled, U, x)
  }

  ghost predicate ExactLabel(ls: Oracle, labelled: OrderGraph, U: State, x: Var) {
    && (U, U + {x}) in labelled.edges
    && LabelExact(ls, (U, U + {x})).Success?
    && labelled.edges[(U, U + {x})] == LabelExact(ls, (U, U + {x})).value
  }

  lemma ExactWeight(variables: seq<Var>, ls: Oracle, labelled: OrderGraph, U: State, x: Var)
    requires ExactlyLabelled(variables, ls, labelled)
    requires U <= Elems(variables) && x in variables && x !in U
    ensures ExactLabel(ls, labelled, U, x) && labelled.edges[(U, U + {x})].Labelled?
    ensures Weights(labelled)(U, x) == ls(x, labelled.edges[(U, U + {x})].optimalParents)
    ensures forall Q :: Q <= U ==> Weights(labelled)(U, x) <= ls(x, Q)
  {
    assert ExactLabel(ls, labelled, U, x);
    LabelExactStep(ls, U, x);
  }

  lemma ClosedSameElems(ns: seq<Var>, ms: seq<Var>, E: set<Edge>)
    requires Closed(ns, E) && Elems(ns) == Elems(ms)
    ensures Closed(ms, E)
  {
    forall e | e in E ensures e.0 in ms && e.1 in ms {
      assert e.0 in Elems(ns) && e.1 in Elems(ns);
    }
  }

  /** The DAG the search reads off its shortest path scores exactly the
      cost of that path. */
  lemma ResultScore(variables: seq<Var>, ls: Oracle, labelled: OrderGraph, q: seq<Var>, G: set<Edge>)
    requires Distinct(variables) && IsOrdering(q, Elems(variables))
    requires ExactlyLabelled(variables, ls, labelled)
    requires forall k :: 0 <= k < |q| ==>
      ChainEdge(q, k) in labelled.edges && labelled.edges[ChainEdge(q, k)].Labelled? &&
      Parents(G, q[k]) == labelled.edges[ChainEdge(q, k)].optimalParents
    ensures SumLocal(variables, G, ls) == PathCost(q, Weights(labelled))
  {
    var c := Weights(labelled);
    forall k | 0 <= k < |q| ensures c(Elems(q[..k]), q[k]) == ls(q[k], Parents(G, q[k])) {
      PrefixFresh(q, k);
      PrefixGrows(q, k);
      assert Elems(q[..k]) <= Elems(q) && q[k] in Elems(q);
      ExactWeight(variables, ls, labelled, Elems(q[..k]), q[k]);
    }
    SumLocalIsPathCost(q, G, ls, c);
    SumLocalPerm(variables, q, G, ls);
  }

  /** Any DAG over the variables scores at least the cost of the path of
      its topological order. */
  lemma OtherScore(variables: seq<Var>, ls: Oracle, labelled: OrderGraph, E: set<Edge>) returns (t: seq<Var>)
    requires Distinct(variables) && Closed(variables, E) && Acyclic(E)
    requires ExactlyLabelled(variables, ls, labelled)
    ensures IsOrdering(t, Elems(variables))
    ensures PathCost(t, Weights(labelled)) <= SumLocal(variables, E, ls)
  {
    var c := Weights(labelled);
    TopoSortDecides(variables, E);
    t := TopoSort(variables, E).order;
    forall k | 0 <= k < |t| ensures c(Elems(t[..k]), t[k]) <= ls(t[k], Parents(E, t[k])) {
      PrefixFresh(t, k);
      assert Elems(t[..k]) <= Elems(t) && t[k] in Elems(t);
      ParentsBefore(variables, E, t, k);
      ExactWeight(variables, ls, labelled, Elems(t[..k]), t[k]);
    }
    SumLocalAbovePathCost(t, E, ls, c);
    SumLocalPerm(variables, t, E, ls);
  }

  /** The search with exact labels succeeds, labels every lattice edge
      exactly, and returns the DAG read off a cheapest ordering q. */
  lemma ExactOutcome(variables: seq<Var>, ls: Oracle) returns (labelled: OrderGraph, q: seq<Var>)
    requires Distinct(variables) && |variables| > 0
    ensures IsGenerated(labelled) && labelled.variables == variables
    ensures ExactlyLabelled(variables, ls, labelled)
    ensures SearchExact(variables, ls).Success?
    ensures IsOrdering(q, Elems(variables))
    ensures NonNegativeWeights(labelled) ==>
              forall t :: IsOrdering(t, Elems(variables)) ==> PathCost(q, Weights(labelled)) <= PathCost(t, Weights(labelled))
    ensures Acyclic(SearchExact(variables, ls).value.edges)
    ensures Closed(q, SearchExact(variables, ls).value.edges)
    ensures forall k :: 0 <= k < |q| ==>
              && ChainEdge(q, k) in labelled.edges && labelled.edges[ChainEdge(q, k)].Labelled?
              && Parents(SearchExact(variables, ls).value.edges, q[k]) == labelled.edges[ChainEdge(q, k)].optimalParents
  {
    var labelOf := e => LabelExact(ls, e);
    ExactLabelsWithin(variables, ls);
    labelled, q := SearchOutcome(variables, labelOf);
    assert SearchExact(variables, ls) == SearchWith(variables, labelOf);
    CarriesExactLabels(variables, ls, labelled);
    ExactChainLabels(variables, ls, labelled, q);
  }

  /** Along an ordering, each step of a graph carrying the exact labels
      holds the exact label. */
  lemma ExactChainLabels(variables: seq<Var>, ls: Oracle, labelled: OrderGraph, q: seq<Var>)
    requires CarriesLabels(variables, e => LabelExact(ls, e), labelled)
    requires IsOrdering(q, Elems(variables))
    ensures forall k :: 0 <= k < |q| ==>
              ChainEdge(q, k) in labelled.edges && LabelExact(ls, ChainEdge(q, k)).Success?
              && labelled.edges[ChainEdge(q, k)] == LabelExact(ls, ChainEdge(q, k)).value
  {
    ExactLabelsWithin(variables, ls);
    forall k | 0 <= k < |q|
      ensures ChainEdge(q, k) in labelled.edges && LabelExact(ls, ChainEdge(q, k)).Success?
              && labelled.edges[ChainEdge(q, k)] == LabelExact(ls, ChainEdge(q, k)).value
    {
      ChainStepLabel(variables, e => LabelExact(ls, e), labelled, q, k);
    }
  }

  /** Local scores of at least 0 give exact labels of weight at least 0. */
  lemma ExactWeightsNonNegative(variables: seq<Var>, ls: Oracle, labelled: OrderGraph)
    requires IsGenerated(labelled) && labelled.variables == variables
    requires ExactlyLabelled(variables, ls, labelled)
    requires forall v, P :: ls(v, P) >= 0.0
    ensures NonNegativeWeights(labelled)
  {
    forall e | e in labelled.edges ensures LabelWeight(labelled.edges[e]) >= 0.0 {
      EdgesAreExtensions(variables, e.0, e.1);
      var x :| x in variables && x !in e.0 && e.1 == e.0 + {x};
      ExactWeight(variables, ls, labelled, e.0, x);
    }
  }

  /** A graph carrying the exact labels is exactly labelled. */
  lemma CarriesExactLabels(variables: seq<Var>, ls: Oracle, labelled: OrderGraph)
    requires CarriesLabels(variables, e => LabelExact(ls, e), labelled)
    ensures ExactlyLabelled(variables, ls, labelled)
  {
    forall U, x | U <= Elems(variables) && x in variables && x !in U
      ensures ExactLabel(ls, labelled, U, x)
    {
      assert CarriesLabel(e => LabelExact(ls, e), labelled, U, x);
    }
  }

  lemma ExactLabelsWithin(variables: seq<Var>, ls: Oracle)
    ensures LabelsParentsWithin(variables, e => LabelExact(ls, e))
  {
    forall U, x | U <= Elems(variables) && x in variables && x !in U
      ensures LabelWithin(e => LabelExact(ls, e), U, x)
    {
      LabelExactStep(ls, U, x);
    }
  }

  /** With exact labels and local scores of at least 0 (so that Dijkstra's
      path is a least-weight one) the search returns a DAG over the
      variables whose score is no greater than that of any DAG over the
      variables. */
  lemma SearchExactIsOptimal(variables: seq<Var>, ls: Oracle, E: set<Edge>)
    requires Distinct(variables) && |variables| > 0
    requires Closed(variables, E) && Acyclic(E)
    requires forall v, P :: ls(v, P) >= 0.0
    ensures SearchExact(variables, ls).Success?
    ensures Acyclic(SearchExact(variables, ls).value.edges)
    ensures Closed(variables, SearchExact(variables, ls).value.edges)
    ensures SumLocal(variables, SearchExact(variables, ls).value.edges, ls) <= SumLocal(variables, E, ls)
  {
    var labelled, q := ExactOutcome(variables, ls);
    ExactWeightsNonNegative(variables, ls, labelled);
    var G := SearchExact(variables, ls).value.edges;
    ClosedSameElems(q, variables, G);
    ResultScore(variables, ls, labelled, q, G);
    var t := OtherScore(variables, ls, labelled, E);
  }

  /** The local score that counts parents. */
  function CountParents(v: Var, P: set<Var>): real {
    |P| as real
  }

  lemma AsWrittenLabelsWithin(variables: seq<Var>, ls: Oracle)
    ensures LabelsParentsWithin(variables, e => LabelAsWritten(ls, e))
  {
    forall U, x | U <= Elems(variables) && x in variables && x !in U
      ensures LabelWithin(e => LabelAsWritten(ls, e), U, x)
    {
      LabelAsWrittenStep(ls, U, x);
    }
  }

  /** As written, along the ordering found every step after the first
      labels the placed variable with parents. */
  lemma AsWrittenOutcome(variables: seq<Var>, ls: Oracle) returns (q: seq<Var>)
    requires Distinct(variables) && |variables| > 0
    ensures SearchAsWritten(variables, ls).Success?
    ensures IsOrdering(q, Elems(variables))
    ensures forall k :: 0 < k < |q| ==> Parents(SearchAsWritten(variables, ls).value.edges, q[k]) != {}
  {
    var labelOf := e => LabelAsWritten(ls, e);
    AsWrittenLabelsWithin(variables, ls);
    var labelled;
    labelled, q := SearchOutcome(variables, labelOf);
    assert SearchAsWritten(variables, ls) == SearchWith(variables, labelOf);
    forall k | 0 < k < |q| ensures labelOf(ChainEdge(q, k)).value.optimalParents != {} {
      var U := Elems(q[..k]);
      assert q[0] in U;
      PrefixFresh(q, k);
      PrefixGrows(q, k);
      LabelAsWrittenStep(ls, U, q[k]);
    }
  }

  lemma CountParentsPair(a: Var, b: Var, G: set<Edge>)
    ensures SumLocal([a, b], G, CountParents) == |Parents(G, a)| as real + |Parents(G, b)| as real
  {
    var vs: seq<Var> := [a, b];
    assert vs[1..] == [b] && vs[1..][1..] == [];
    calc {
      SumLocal(vs, G, CountParents);
      CountParents(a, Parents(G, a)) + SumLocal([b], G, CountParents);
      CountParents(a, Parents(G, a)) + CountParents(b, Parents(G, b)) + SumLocal([], G, CountParents);
    }
  }

  /** As written, over two or more variables some variable always gets a
      parent, whatever the local scores. */
  lemma AsWrittenHasEdge(variables: seq<Var>, ls: Oracle) returns (v: Var)
    requires Distinct(variables) && |variables| >= 2
    ensures SearchAsWritten(variables, ls).Success?
    ensures v in variables && Parents(SearchAsWritten(variables, ls).value.edges, v) != {}
  {
    var q := AsWrittenOutcome(variables, ls);
    DistinctCard(q);
    DistinctCard(variables);
    v := q[1];
    assert v in Elems(q);
  }

  lemma EmptyDagPair(a: Var, b: Var)
    ensures SumLocal([a, b], {}, CountParents) == 0.0 && Acyclic({})
  {
    CountParentsPair(a, b, {});
    assert Parents({}, a) == {} && Parents({}, b) == {};
    var none: set<Edge> := {};
    forall c | |c| >= 2 ensures !IsPath(none, c) {
      assert (c[0], c[1]) !in none;
    }
  }

  /** As written, over two variables with a local score that counts
      parents, the search returns a DAG with an edge, scoring at least 1,
      while the empty DAG over the same variables scores 0. */
  lemma AsWrittenNotOptimal(a: Var, b: Var)
    requires a != b
    ensures SearchAsWritten([a, b], CountParents).Success?
    ensures SumLocal([a, b], SearchAsWritten([a, b], CountParents).value.edges, CountParents) >= 1.0
    ensures SumLocal([a, b], {}, CountParents) == 0.0 && Acyclic({})
  {
    var v := AsWrittenHasEdge([a, b], CountParents);
    PairWithEdge(a, b, v, SearchAsWritten([a, b], CountParents).value.edges);
    EmptyDagPair(a, b);
  }

  lemma PairWithEdge(a: Var, b: Var, v: Var, G: set<Edge>)
    requires v in [a, b] && Parents(G, v) != {}
    ensures SumLocal([a, b], G, CountParents) >= 1.0
  {
    assert v == a || v == b;
    assert |Parents(G, v)| >= 1;
    CountParentsPair(a, b, G);
  }
}
