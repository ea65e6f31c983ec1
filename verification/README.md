# Structure search for Bayesian networks, modelled in Dafny

DLBN learns the structure of a Bayesian network — a directed acyclic graph
(DAG) over the variables of a data set — by searching for the graph that
optimises a decomposable score: the sum, over the nodes, of a local score
of the node given its parent set. This project models the search core:

- `DirectGraph` (`direct_graph.dfy`): the DAG class. Construction from an
  edge list with a cycle check, the decomposable score with its
  `10e10` offset, and subtraction as the structural Hamming distance (SHD).
- `Paths` (`paths.dfy`): reachability, cycles and topological orders, and
  the graph queries the search relies on: `has_path`, `find_cycle`, and
  "is there a simple path longer than the edge itself".
- `Lattice`, `ShortestOrder`, `OrderSearch`, `ExactSearch`: the exact search.
  - `OrderSearch` builds the order graph, whose states are the subsets of the
    variables and whose edges add one variable. Each edge gets the cost of
    the best parent set, chosen from a parent graph. Dijkstra's path is the
    cheapest variable ordering, and the DAG is read back along that path.
  - `ExactSearch` composes these stages. It shows what the composition
    guarantees, both with the edge costs as written and with the corrected
    costs.
- `HillClimbing` (`hill_climb.dfy`): tabu hill climbing. It enumerates the
  legal add, remove and flip moves with their score deltas, takes the best
  move until none improves, and picks the best DAG over the restarts.
- `Genetic` (`genetic.dfy`): the genetic search's population bookkeeping.
  This covers the rank-based selection weights, selection, topping up the
  population, sorting by score, and decoding a genome (a flattened
  adjacency matrix) into a DAG.

The local score is a parameter `ls: (Var, set<Var>) -> real`. Everything
random is also a parameter: the explored node lists, the restart DAGs, the
indices drawn by selection and the newly generated genomes.

## Model

| member | source | states |
|---|---|---|
| Paths.HasPath | bnsl/heuristic.py:99 | the reachability test answers true exactly when a directed path leads from the first node to the second |
| Paths.TopoSortDecides | dlbn/direct_graph.py:29-35 | the cycle search finds a topological order exactly when the edge set has no cycle |
| Paths.LongSimplePathIff | bnsl/heuristic.py:85 | a simple path from u to v of more than one edge exists exactly when v stays reachable from u once the edge (u, v) is removed |
| Paths.AddEdgeAcyclic | bnsl/heuristic.py:99-101 | adding (u, v) to an acyclic graph in which v does not reach u leaves it acyclic |
| DirectGraph.FromEdgeList | dlbn/direct_graph.py:20-21 | loading an edge list adds exactly the listed edges; the nodes become the old nodes plus every endpoint, and the graph stays well formed |
| DirectGraph.CheckCycle | dlbn/direct_graph.py:29-35 | no cycle is reported exactly when the graph is acyclic; a reported cycle is a closed walk along edges of the graph |
| DirectGraph.New | dlbn/direct_graph.py:20-27 | construction succeeds exactly when the edge data is acyclic; a rejected graph names the edges of a cycle |
| DirectGraph.Score | dlbn/direct_graph.py:37-49 | the detailed report maps every node to its local score given its parents and totals them; the plain score is that total minus 10e10 |
| DirectGraph.SumMapIsSumLocal | dlbn/direct_graph.py:40-48 | the per-node report sums to the decomposable score |
| DirectGraph.SumLocalPerm | dlbn/direct_graph.py:40-44 | the score does not depend on the order in which the nodes were inserted |
| DirectGraph.SumLocalOneChange | bnsl/heuristic.py:78-83 | when one node's parent set changes, the score changes by that node's local difference alone |
| DirectGraph.SumLocalTwoChanges | bnsl/heuristic.py:88-97 | when two nodes' parent sets change, the score changes by the sum of their two local differences |
| DirectGraph.Subtract | dlbn/direct_graph.py:59-74 | among DAG, OrderGraph and ParentGraph operands, subtraction succeeds exactly when the left operand is an instance of the right operand's class, and otherwise raises; the result is the size of the symmetric difference of the edge sets, zero exactly when they agree |
| DirectGraph.ShdSymmetric | dlbn/direct_graph.py:68-71 | the distance is symmetric |
| DirectGraph.ShdSelf | dlbn/direct_graph.py:68-71 | a graph is at distance zero from itself |
| DirectGraph.ShdTriangle | dlbn/direct_graph.py:68-71 | the distance obeys the triangle inequality |
| DirectGraph.ShdExample | dlbn/direct_graph.py:76-83 | the graphs a->b<-c and a->b->c are at distance 2 |
| DirectGraph.SubtractClassCheck | dlbn/direct_graph.py:68-74 | a DAG minus an order graph is refused, while an order graph minus a DAG is allowed, because an order graph is a DAG |
| Lattice.NodesAreSubsets | dlbn/order_graph.py:51-67 | the states generated from all orderings are exactly the subsets of the variables |
| Lattice.EdgesAreExtensions | dlbn/order_graph.py:51-67 | the generated edges are exactly the steps that add one variable to a state |
| Lattice.NodeCount | dlbn/order_graph.py:47-68 | n distinct variables give 2^n states |
| OrderSearch.Generate | dlbn/order_graph.py:47-68 | generation adds the lattice's states and edges, keeps the labels already present and leaves the new edges unlabelled |
| OrderSearch.GenerateShape | dlbn/order_graph.py:47-68 | a freshly generated order graph holds every subset of the variables and exactly the one-variable steps between them |
| OrderSearch.GenerateCount | dlbn/order_graph.py:47-68 | the generated graph has 2^n states and every edge adds exactly one variable |
| OrderSearch.GenerateIdempotent | dlbn/order_graph.py:47-68 | generating a second time changes nothing |
| OrderSearch.GenerateParentGraph | dlbn/order_graph.py:128-133 | a parent graph is the subset lattice over the potential parents and keeps its variable |
| OrderSearch.AddParentCosts | dlbn/order_graph.py:135-150 | every edge of the parent graph is charged the local score of the variable given the edge's target set |
| OrderSearch.FindOptimalParents | dlbn/order_graph.py:152-159 | an empty parent graph is an error; otherwise the result is the target and cost of an edge of least cost |
| OrderSearch.ParentTargets | dlbn/order_graph.py:144-149 | the edge targets of a parent graph are exactly the non-empty subsets of the potential parents |
| OrderSearch.ChooseParentsBest | dlbn/order_graph.py:85-89 | for a non-empty state, the chosen parents are a non-empty subset of it, and their cost is their local score, which is no more than that of any non-empty subset |
| OrderSearch.LabelEdges | dlbn/order_graph.py:77-95 | labelling an ungenerated graph fails; otherwise it succeeds exactly when every edge gets a label, and only the labels change |
| OrderSearch.LabelAsWrittenStep | dlbn/order_graph.py:83-93 | a step out of the empty state costs 0 with no parents; any other step costs the best non-empty parent set within the state |
| OrderSearch.AddCostLabels | dlbn/order_graph.py:70-95 | adding costs to a generated graph labels every edge with its step's label |
| OrderSearch.OrderPathWeight | dlbn/order_graph.py:97-102 | the states visited by an ordering form a path of the order graph whose weight is the ordering's cost |
| OrderSearch.GraphPathOrder | dlbn/order_graph.py:97-102 | every path from the empty state is the state sequence of an ordering, with the same weight |
| OrderSearch.FindShortestPath | dlbn/order_graph.py:97-102 | the search succeeds exactly on a generated graph; it stores a path of graph edges from the empty state to the full state and changes nothing else; when no edge weighs less than 0, that path has least weight among all such paths |
| OrderSearch.CollectParents | dlbn/order_graph.py:116-123 | reading the path back succeeds exactly when every step is labelled and adds a variable; the DAG gains an edge from each optimal parent to each step's new variable |
| OrderSearch.OptimalResult | dlbn/order_graph.py:104-125 | the result is not ready exactly when no path, or an empty one, is stored |
| OrderSearch.OptimalResultParents | dlbn/order_graph.py:116-125 | along an ordering's path, the resulting DAG is acyclic and each variable's parents are exactly the optimal parents on its step |
| ShortestOrder.BestOrder | dlbn/order_graph.py:97-102 | the dynamic program over subsets returns an ordering of the state with its cost, and no ordering costs less |
| ExactSearch.SearchOutcome | dlbn/order_graph.py:47-125 | when each step's parents lie within its state, the whole search succeeds; its DAG is acyclic with each variable's parents taken from that variable's step along the found ordering, which is cost-optimal when no step weighs less than 0 |
| ExactSearch.LabelExactStep | dlbn/order_graph.py:85-93 | the corrected cost of a step is the local score of a parent set within the state, with the empty set allowed, and no subset scores lower |
| ExactSearch.ExactWeightsNonNegative | dlbn/order_graph.py:85-100 | with local scores of at least 0, every corrected step weighs at least 0, as Dijkstra's algorithm needs |
| ExactSearch.SearchExactIsOptimal | dlbn/order_graph.py:70-125 | with corrected costs and local scores of at least 0, the search returns an acyclic DAG over the variables whose score is at most that of any acyclic DAG over them |
| ExactSearch.AsWrittenOutcome | dlbn/order_graph.py:85-93 | with the costs as written, every variable after the first in the found ordering has a parent |
| ExactSearch.AsWrittenHasEdge | dlbn/order_graph.py:85-93 | with the costs as written and at least two variables, some variable of the result has a parent |
| ExactSearch.AsWrittenNotOptimal | dlbn/order_graph.py:85-93 | for two variables and a score that counts parents, the as-written result scores at least 1, while the empty DAG is acyclic and scores 0 |
| HillClimbing.NewHillClimb | bnsl/heuristic.py:42-63 | a climber starts with an empty tabu list and history; it uses the initial DAG when one is given and non-empty, otherwise the random one |
| HillClimbing.FlipLegal | bnsl/heuristic.py:85 | an existing edge may be flipped exactly when no longer simple path joins its endpoints |
| HillClimbing.PossibleOperations | bnsl/heuristic.py:65-107 | every proposed move touches an explored node and is not tabu; removals and flips act on present edges, and additions on absent edges that create no cycle |
| HillClimbing.PossibleOperationsExact | bnsl/heuristic.py:65-107 | a scored move is proposed exactly when it is legal, non-tabu, touches an explored node and carries the score change of applying it |
| HillClimbing.RemoveScore | bnsl/heuristic.py:75-83 | the removal delta is exactly the change in total score the removal causes |
| HillClimbing.AddScore | bnsl/heuristic.py:99-107 | the addition delta is exactly the change in total score the addition causes |
| HillClimbing.FlipScore | bnsl/heuristic.py:85-97 | the flip delta is exactly the change in total score the flip causes |
| HillClimbing.ApplyKeepsDag | bnsl/heuristic.py:139-148 | applying a proposed move to a DAG yields a DAG over the same nodes |
| HillClimbing.MoveSound | bnsl/heuristic.py:139-149 | applying a proposed move keeps the graph acyclic, and the total score moves by the move's delta |
| HillClimbing.RemovalNotUndone | bnsl/heuristic.py:99-101 | once a removal has put ('+', (u, v)) on the tabu list, adding (u, v) is never proposed again |
| HillClimbing.FlipBackProposed | bnsl/heuristic.py:144-148 | after a flip of (u, v) is recorded, flipping the edge back is still proposed, because the tabu entry names (u, v) and not (v, u) |
| HillClimbing.BestOperation | bnsl/heuristic.py:131-135 | the chosen move is one of the candidates, and none of them is better in the search direction |
| HillClimbing.NextTabu | bnsl/heuristic.py:139-148 | a removal of (u, v) appends ('+', (u, v)), a flip of (u, v) appends ('flip', (u, v)), an addition appends nothing; earlier entries stay |
| HillClimbing.ChooseMove | bnsl/heuristic.py:65-137 | a sampled node missing from a graph that has nodes raises `NodeNotFound` (from `nx.has_path`); otherwise having no candidate is an error; the climb stops exactly when the best candidate worsens the score; a taken move is a best candidate and yields a DAG whose score moves by its delta |
| HillClimbing.ClimbFrom | bnsl/heuristic.py:122-149 | one restart returns its moves: at most max_iter, each a best move on offer for that iteration's node list given the DAG and tabu list the earlier moves left, and none against the direction; the run fails exactly when fewer than max_iter moves were taken and the next node list holds a node missing from the DAG (`NodeNotFound`) or nothing is on offer (the `max`/`min` error); otherwise it stopped at max_iter or at a best move against the direction, and the DAG, tabu list and score trace are those the moves produce (an acyclic DAG over the start's nodes, a trace from the start's score to the final score that never worsens) |
| HillClimbing.RemovedEdgeStaysOut | bnsl/heuristic.py:141-143 | within a restart, once an edge was removed, no later move adds it back |
| HillClimbing.FirstBest | bnsl/heuristic.py:155-158 | the selected index holds a best score, and no earlier entry is as good |
| HillClimbing.RunRestarts | bnsl/heuristic.py:116-152 | restart k is a greedy run from the searcher's DAG (k = 0) or the k-th random DAG, with the tabu list the earlier runs left; on success there is one run per restart, each ended normally, its result is the DAG its moves produce paired with that DAG's score, its trace is the running sum of its deltas, and the final tabu list carries every run's entries; a failure is a last run that is blocked, with `NodeNotFound` exactly when its node list holds a node its start DAG lacks; start DAGs need not contain every column |
| HillClimbing.Climb | bnsl/heuristic.py:109-159 | each restart is the greedy run from its start DAG; the search keeps the current DAG or takes the first best-scoring restart result depending on the direction; with no restarts it fails unless the direction is neither up nor down; any other failure is a blocked last run, raising `NodeNotFound` or the `max`/`min` error as that run does; history grows by each run's trace in turn, the tabu list by each run's entries, and nothing else changes |
| Genetic.SortDesc | bnsl/heuristic.py:242-243 | sorting by score gives a descending permutation of the population |
| Genetic.SortDescSorted | bnsl/heuristic.py:230-231 | re-sorting an already sorted population changes nothing |
| Genetic.SelectionWeights | bnsl/heuristic.py:246-247 | the weights exist for every size except 1, where the division by zero raises |
| Genetic.SelectionWeightsDistribution | bnsl/heuristic.py:246-247 | for two or more individuals the weights form a probability distribution: non-negative, strictly decreasing with rank, zero for the last, and summing to 1 |
| Genetic.Keep | bnsl/heuristic.py:249-250 | masking keeps the individuals at the drawn indices in increasing index order: entry k is the individual at the k-th smallest drawn index |
| Genetic.IndicesAreDrawn | bnsl/heuristic.py:249-250 | the increasing index list holds every drawn index below the population size and no other |
| Genetic.Select | bnsl/heuristic.py:245-251 | selection fails on a population of one (division by zero) and on an empty one (the empty weight list does not sum to 1); otherwise the survivors are exactly the drawn individuals, as many as were drawn, still sorted |
| Genetic.Crossover | bnsl/heuristic.py:210-228 | crossover fails with the reshape error exactly when some row's child, cut by `zip` to the shorter of the row's and its partner's genome, does not have n * n entries; otherwise the population is unchanged |
| Genetic.CrossoverShaped | bnsl/heuristic.py:210-220 | crossover on genomes of n * n entries always succeeds |
| Genetic.AddPop | bnsl/heuristic.py:233-243 | topping up gives a sorted population that is exactly the old one plus the newcomers |
| Genetic.GenomeToDag | bnsl/heuristic.py:258-264 | a genome that cannot be reshaped to n by n is an error; otherwise the decoded graph has the given nodes and only edges between them |
| Genetic.GenomeEdgeIff | bnsl/heuristic.py:260-263 | the decoded graph has the edge from node i to node j exactly when cell (i, j) of the genome is non-zero |
| Genetic.DecodeEncode | bnsl/heuristic.py:258-264 | decoding a graph's adjacency genome gives the graph back |
| Genetic.EncodeDecode | bnsl/heuristic.py:258-264 | encoding a decoded genome gives its 0/1 normalisation |
| Genetic.Generation | bnsl/heuristic.py:269-276 | one generation fails on an empty population or on a single individual; with two or more it fails exactly when crossover cannot reshape a survivor's child; otherwise the size is kept, the population stays sorted, and as a multiset it is the selected survivors plus the new individuals |
| Genetic.GenerationShaped | bnsl/heuristic.py:269-276 | a generation of two or more individuals whose genomes all have n * n entries succeeds |
| Genetic.Evolution | bnsl/heuristic.py:266-279 | when every initial and generated genome has n * n entries and the population can be selected from, evolution succeeds; after the iterations the population has its initial size and is sorted; the result decodes the top genome, which scores best; every member comes from the start or from a generated batch |

## Left out

- Concrete scores such as BIC and BDeu, and the estimators: the local score is an abstract parameter. Parent lists are sets, and floats are reals.
- Randomness is a parameter: `random_dag`, `random.choices`, `random.choice` (crossover partners and genes), `np.random.choice` and the genomes from `generate_genome`. `bnsl/graph.py` is not part of this model, so `DAG.genome` and `DAG.score` stand for the adjacency encoding and the decomposable sum.
- `SimulatedAnnealing`, `Genetic.start`, and the console, log and tqdm output: none of these is in the modelled core.
- The warning when `num_explore` exceeds the node count: it does not affect the result.
- HillClimbing.NewHillClimb: the `ValueError` that `HillClimb.__init__` raises when the score method is not a `Score` instance (bnsl/heuristic.py:48-49) is dropped, because the local score is a parameter. The default argument `BIC_score` is a class, so the default always raises.
- DirectGraph.Subtract: only DAG, OrderGraph and ParentGraph operands are modelled. `isinstance` also accepts a right operand of class `nx.DiGraph` or `nx.Graph`, which every DAG is an instance of; such operands are not modelled.
- OrderSearch.FindShortestPath: with an edge weighing less than 0, networkx's Dijkstra may return a path that is not least-weight or raise `ValueError`; the model promises least weight only without such edges and does not model that error.
- ExactSearch.SearchExactIsOptimal: optimality is proved only for local scores of at least 0, for the same reason.
- OrderSearch.FindOptimalParents: `min` over the edges returns the first least-cost edge in networkx's edge order (dlbn/order_graph.py:156); the model returns some least-cost edge.
- HillClimbing.BestOperation: `max` and `min` return the first best move in the generator's order (bnsl/heuristic.py:131,135), which depends on set iteration order; the model returns some best move.
- HillClimbing.Climb: when a restart fails, the source has already appended that and earlier restarts' tabu entries and histories to the searcher before `max` or `min` raises (bnsl/heuristic.py:142-150); the model returns only the error, though the moves of every run, the failed one included, are returned alongside.
- `DAG.to_excel`: file output.
- `Genetic.crossover`: the reshape error is modelled (`Genetic.Crossover`), but the matrix-exponential branch is not. Its children are never added to the population, because the result of `pd.concat` is discarded; all the branch can do to the population is re-sort it. For n >= 1 and a child with no negative entry, the trace of `expm(adj)` is at least n, so the branch is not taken. For n = 0 it is taken and re-sorts an already sorted frame, which pandas may reorder only among equal scores (see `Genetic.SortDesc`). The model leaves the population as it is in both cases, and floating point is not modelled.
- OrderSearch.FindShortestPath: Dijkstra's tie-breaking among equally short paths is not modelled; the result is some least-weight path.
- Genetic.SortDesc: pandas' order among equal scores is not modelled; ties may come out in any order.
- Genetic.Select: the drawn indices are an input. They are distinct, and never the last index, whose weight is 0, so the draw is assumed possible.
- Genetic.GenomeToDag: `bnsl/graph.py` is not part of this model, so whether a decoded genome can be cyclic is not stated.
- HillClimbing.Climb: the direction is `Up`, `Down` or `Other`. `Other` climbs like `Down` (the code's `else` branch), but the current DAG is kept at the end.

Where the code does something unexpected:

- The tabu list is never cleared between restarts: `climb` appends to `self.tabu_list` and never resets it (bnsl/heuristic.py:142,145; `HillClimbing.TabuChain`).
- A flip's tabu entry does not stop the flipped edge from being flipped back: a flip of (u, v) records ('flip', (u, v)) (bnsl/heuristic.py:145), while flipping the new edge back is looked up as ('flip', (v, u)) (bnsl/heuristic.py:86-87; `HillClimbing.FlipBackProposed`). A removal's entry does stop the edge from being re-added (`HillClimbing.RemovalNotUndone`).
- An initial DAG that lacks one of the data's columns is accepted (bnsl/heuristic.py:52-53), but `climb` raises `NodeNotFound` as soon as that column is sampled, from `nx.has_path` (bnsl/heuristic.py:99; `HillClimbing.NodeMissing`).
- `DAG.add_edge` is networkx's and performs no cycle check; only the constructor checks (dlbn/direct_graph.py:29-35).
- `generate_order_graph` creates 2^n states, the empty one included (`Lattice.NodeCount`), while its docstring says "2^n-1 states" (dlbn/order_graph.py:49).
- Searching for a path before costs are added does not fail (`nx.dijkstra_path` with `weight='cost'`, dlbn/order_graph.py:100): an unlabelled edge weighs 1, as it does for Dijkstra without a `cost` attribute. The search fails only when the graph was never generated.

## Findings

| source | as written | input that shows it | evidently intended | confidence | as-written member | corrected member |
|---|---|---|---|---|---|---|
| dlbn/order_graph.py:85-93 | a step out of the empty state costs 0, and a step out of a non-empty state may only choose a non-empty parent set, because the parent graph's edges never target the empty set | two variables a, b and a local score equal to the number of parents: the search returns a DAG with an edge, scoring 1, while the empty DAG is acyclic and scores 0 | each step costs the best local score of the new variable over all subsets of the state, the empty set included, which makes the search optimal over all DAGs | not executed | ExactSearch.AsWrittenNotOptimal | ExactSearch.SearchExactIsOptimal |
