/** The DAG value of dlbn/direct_graph.py: a node list in insertion order
    and an edge set, checked for cycles when it is built, scored by summing
    a local-score oracle over every node's parent set, and compared with
    another DAG by structural Hamming distance. */
module DirectGraph {
  import opened Base
  import opened Paths

  /** A directed graph as networkx stores it: nodes in insertion order and
      the set of (source, target) edges. */
  datatype Dag = Dag(nodes: seq<Var>, edges: set<Edge>)

  /** The local-score oracle: the score of a variable given a parent set. */
  type Oracle = (Var, set<Var>) -> real

  /** Representation invariant of every networkx graph: each node once, and
      every edge endpoint is a node. */
  ghost predicate WellFormed(g: Dag) {
    Distinct(g.nodes) && Closed(g.nodes, g.edges)
  }

  ghost predicate IsDag(g: Dag) {
    WellFormed(g) && Acyclic(g.edges)
  }

  // ---------------------------------------------------------------------
  // Building graphs

  /** networkx add_node: a node already present keeps its place. */
  function AddNode(ns: seq<Var>, x: Var): (r: seq<Var>)
    ensures Elems(r) == Elems(ns) + {x}
    ensures Distinct(ns) ==> Distinct(r)
  {
    if x in ns then ns else ns + [x]
  }

  /** networkx add_edge: inserts missing endpoints, then the edge. The
      DAG class does not override it, so no cycle check happens here. */
  function AddEdge(g: Dag, u: Var, v: Var): (r: Dag)
    ensures r.edges == g.edges + {(u, v)}
    ensures Elems(r.nodes) == Elems(g.nodes) + {u, v}
    ensures WellFormed(g) ==> WellFormed(r)
  {
    Dag(AddNode(AddNode(g.nodes, u), v), g.edges + {(u, v)})
  }

  /** x is an endpoint of some edge in es. */
  predicate Mentions(es: seq<Edge>, x: Var) {
    exists k :: 0 <= k < |es| && (es[k].0 == x || es[k].1 == x)
  }

  /** The graph networkx builds from an edge list: nodes in order of first
      appearance. */
  function FromEdgeList(g: Dag, es: seq<Edge>): (r: Dag)
    ensures r.edges == g.edges + Elems(es)
    ensures forall x :: x in r.nodes <==> x in g.nodes || Mentions(es, x)
    ensures WellFormed(g) ==> WellFormed(r)
    decreases |es|
  {
    if es == [] then g
    else
      var r := FromEdgeList(AddEdge(g, es[0].0, es[0].1), es[1..]);
      assert Elems(es) == {es[0]} + Elems(es[1..]);
      MentionsCons(es);
      r
  }

  lemma MentionsCons(es: seq<Edge>)
    requires es != []
    ensures forall x :: Mentions(es, x) <==> x == es[0].0 || x == es[0].1 || Mentions(es[1..], x)
  {
    forall x | Mentions(es, x)
      ensures x == es[0].0 || x == es[0].1 || Mentions(es[1..], x) {
      var k :| 0 <= k < |es| && (es[k].0 == x || es[k].1 == x);
      if k > 0 { assert es[1..][k - 1] == es[k]; }
    }
    forall x | Mentions(es[1..], x) ensures Mentions(es, x) {
      var k :| 0 <= k < |es[1..]| && (es[1..][k].0 == x || es[1..][k].1 == x);
      assert es[k + 1] == es[1..][k];
    }
  }

  // ---------------------------------------------------------------------
  // Cycle check and construction

  /** cs lists the edges of a closed walk in E, each starting where the
      previous one ended. */
  ghost predicate IsCycleEdges(E: set<Edge>, cs: seq<Edge>) {
    && |cs| >= 1
    && (forall k :: 0 <= k < |cs| ==> cs[k] in E)
    && (forall k :: 0 <= k < |cs| - 1 ==> cs[k].1 == cs[k + 1].0)
    && cs[|cs| - 1].1 == cs[0].0
  }

  /** The edges (c[k], c[k+1]) of a node walk. */
  function WalkEdges(c: seq<Var>): (cs: seq<Edge>)
    requires |c| >= 1
    ensures |cs| == |c| - 1
    ensures forall k :: 0 <= k < |cs| ==> cs[k] == (c[k], c[k + 1])
  {
    seq(|c| - 1, k requires 0 <= k < |c| - 1 => (c[k], c[k + 1]))
  }

  /** DAG._check_cycle: no cycle, or the edges of one. */
  function CheckCycle(g: Dag): (r: Option<seq<Edge>>)
    requires Closed(g.nodes, g.edges)
    ensures r.None? <==> Acyclic(g.edges)
    ensures r.Some? ==> IsCycleEdges(g.edges, r.value)
  {
    TopoSortDecides(g.nodes, g.edges);
    match TopoSort(g.nodes, g.edges)
    case Order(_) => None
    case Cycle(c) => Some(WalkEdges(c))
  }

  /** DAG(incoming_graph_data): builds the graph from an edge list and
      rejects it, naming the edges of a cycle, when it has one. */
  function New(es: seq<Edge>): (r: Result<Dag>)
    ensures r.Success? <==> Acyclic(Elems(es))
    ensures r.Success? ==> r.value.edges == Elems(es) && IsDag(r.value)
    ensures r.Success? ==> forall x :: x in r.value.nodes <==> Mentions(es, x)
    ensures r.Failure? ==> r.error.InvalidStructure? && IsCycleEdges(Elems(es), r.error.cycle)
  {
    assert WellFormed(Dag([], {}));
    var g := FromEdgeList(Dag([], {}), es);
    assert g.edges == Elems(es);
    match CheckCycle(g)
    case None => Success(g)
    case Some(cycle) => Failure(InvalidStructure(cycle))
  }

  // ---------------------------------------------------------------------
  // Scoring

  /** predecessors(v), as a set. */
  function Parents(E: set<Edge>, v: Var): (r: set<Var>)
    ensures forall p :: p in r <==> (p, v) in E
  {
    set e | e in E && e.1 == v :: e.0
  }

  /** Sum over the nodes ns of the oracle's score given each node's parents. */
  function SumLocal(ns: seq<Var>, E: set<Edge>, ls: Oracle): real {
    if ns == [] then 0.0 else ls(ns[0], Parents(E, ns[0])) + SumLocal(ns[1..], E, ls)
  }

  /** The structure score: the decomposable sum of local scores. */
  function TotalScore(g: Dag, ls: Oracle): real {
    SumLocal(g.nodes, g.edges, ls)
  }

  /** The constant DAG.score subtracts when no detail is asked for (10e10). */
  const ScoreOffset: real := 100000000000.0

  datatype ScoreReport =
    | Detailed(total: real, perNode: map<Var, real>)
    | Plain(value: real)

  /** Sum over ns of the per-node scores recorded in m. */
  function SumMap(ns: seq<Var>, m: map<Var, real>): real
    requires forall k :: 0 <= k < |ns| ==> ns[k] in m
  {
    if ns == [] then 0.0 else m[ns[0]] + SumMap(ns[1..], m)
  }

  /** DAG.score: with detail, the total and each node's local score; without,
      the total minus 10e10. */
  function Score(g: Dag, ls: Oracle, detail: bool): (r: ScoreReport)
    ensures detail <==> r.Detailed?
    ensures r.Detailed? ==> r.perNode.Keys == Elems(g.nodes)
    ensures r.Detailed? ==> forall n :: n in r.perNode ==> r.perNode[n] == ls(n, Parents(g.edges, n))
    ensures r.Detailed? ==> r.total == SumMap(g.nodes, r.perNode)
    ensures r.Plain? ==> r.value + ScoreOffset == SumMap(g.nodes, map n | n in g.nodes :: ls(n, Parents(g.edges, n)))
  {
    var perNode := map n | n in g.nodes :: ls(n, Parents(g.edges, n));
    SumMapIsSumLocal(g.nodes, g.edges, ls, perNode);
    if detail then Detailed(TotalScore(g, ls), perNode)
    else Plain(TotalScore(g, ls) - ScoreOffset)
  }

  lemma {:induction false} SumMapIsSumLocal(ns: seq<Var>, E: set<Edge>, ls: Oracle, m: map<Var, real>)
    requires forall k :: 0 <= k < |ns| ==> ns[k] in m && m[ns[k]] == ls(ns[k], Parents(E, ns[k]))
    ensures SumMap(ns, m) == SumLocal(ns, E, ls)
  {
    if ns != [] {
      SumMapIsSumLocal(ns[1..], E, ls, m);
    }
  }

  lemma {:induction false} SumLocalSnoc(ns: seq<Var>, x: Var, E: set<Edge>, ls: Oracle)
    ensures SumLocal(ns + [x], E, ls) == SumLocal(ns, E, ls) + ls(x, Parents(E, x))
  {
    if ns != [] {
      assert (ns + [x])[1..] == ns[1..] + [x];
      SumLocalSnoc(ns[1..], x, E, ls);
    }
  }

  lemma {:induction false} SumLocalConcat(s: seq<Var>, t: seq<Var>, E: set<Edge>, ls: Oracle)
    ensures SumLocal(s + t, E, ls) == SumLocal(s, E, ls) + SumLocal(t, E, ls)
  {
    if s == [] {
      assert s + t == t;
    } else {
      assert (s + t)[1..] == s[1..] + t;
      SumLocalConcat(s[1..], t, E, ls);
    }
  }

  /** Decomposability: the score depends on each node's parent set only. */
  lemma {:induction false} SumLocalAgree(ns: seq<Var>, E: set<Edge>, F: set<Edge>, ls: Oracle)
    requires forall k :: 0 <= k < |ns| ==> Parents(E, ns[k]) == Parents(F, ns[k])
    ensures SumLocal(ns, E, ls) == SumLocal(ns, F, ls)
  {
    if ns != [] {
      SumLocalAgree(ns[1..], E, F, ls);
    }
  }

  /** Changing one node's parents changes the score by that node's local
      difference only. */
  lemma {:induction false} SumLocalOneChange(ns: seq<Var>, E: set<Edge>, F: set<Edge>, ls: Oracle, v: Var)
    requires Distinct(ns) && v in ns
    requires forall k :: 0 <= k < |ns| && ns[k] != v ==> Parents(E, ns[k]) == Parents(F, ns[k])
    ensures SumLocal(ns, F, ls) - SumLocal(ns, E, ls) == ls(v, Parents(F, v)) - ls(v, Parents(E, v))
  {
    if ns[0] == v {
      SumLocalAgree(ns[1..], E, F, ls);
    } else {
      SumLocalOneChange(ns[1..], E, F, ls, v);
    }
  }

  /** Changing two nodes' parents changes the score by their two local
      differences. */
  lemma {:induction false} SumLocalTwoChanges(ns: seq<Var>, E: set<Edge>, F: set<Edge>, ls: Oracle, u: Var, v: Var)
    requires Distinct(ns) && u in ns && v in ns && u != v
    requires forall k :: 0 <= k < |ns| && ns[k] != u && ns[k] != v ==> Parents(E, ns[k]) == Parents(F, ns[k])
    ensures SumLocal(ns, F, ls) - SumLocal(ns, E, ls)
         == ls(u, Parents(F, u)) - ls(u, Parents(E, u)) + ls(v, Parents(F, v)) - ls(v, Parents(E, v))
  {
    if ns[0] == u {
      SumLocalOneChange(ns[1..], E, F, ls, v);
    } else if ns[0] == v {
      SumLocalOneChange(ns[1..], E, F, ls, u);
    } else {
      SumLocalTwoChanges(ns[1..], E, F, ls, u, v);
    }
  }

  /** The score does not depend on the order the nodes were inserted in. */
  lemma {:induction false} SumLocalPerm(s: seq<Var>, t: seq<Var>, E: set<Edge>, ls: Oracle)
    requires Distinct(s) && Distinct(t) && Elems(s) == Elems(t)
    ensures SumLocal(s, E, ls) == SumLocal(t, E, ls)
    decreases |s|
  {
    if s == [] {
      DistinctCard(t);
      assert Elems(t) == {};
    } else {
      assert s[0] in Elems(t);
      var i := IndexOf(t, s[0]);
      var t' := RemoveAt(t, i);
      RemoveAtElems(t, i);
      assert Elems(s[1..]) == Elems(s) - {s[0]} by {
        assert Elems(s) == {s[0]} + Elems(s[1..]);
        assert s[0] !in s[1..];
      }
      SumLocalPerm(s[1..], t', E, ls);
      assert t == t[..i] + [t[i]] + t[i + 1..];
      SumLocalConcat(t[..i] + [t[i]], t[i + 1..], E, ls);
      SumLocalConcat(t[..i], [t[i]], E, ls);
      SumLocalConcat(t[..i], t[i + 1..], E, ls);
    }
  }

  // ---------------------------------------------------------------------
  // Structural Hamming distance

  /** The classes that share DAG's subtraction: ParentGraph extends
      OrderGraph, which extends DAG. */
  datatype GraphClass = DagClass | OrderGraphClass | ParentGraphClass

  /** isinstance(x, cls) for an instance of class c. */
  predicate IsInstance(c: GraphClass, cls: GraphClass) {
    c == cls || cls == DagClass || (c == ParentGraphClass && cls == OrderGraphClass)
  }

  /** The edges present in exactly one of the two graphs. */
  function SymDiff(a: set<Edge>, b: set<Edge>): set<Edge> {
    (a - b) + (b - a)
  }

  /** DAG.__sub__: false positives plus false negatives, refused unless the
      left operand is an instance of the right operand's class. */
  function Subtract(a: Dag, aClass: GraphClass, b: Dag, bClass: GraphClass): (r: Result<nat>)
    ensures r.Success? <==> IsInstance(aClass, bClass)
    ensures r.Failure? ==> r.error == IncomparableStructure
    ensures r.Success? ==> r.value == |SymDiff(a.edges, b.edges)|
    ensures r.Success? ==> (r.value == 0 <==> a.edges == b.edges)
  {
    if IsInstance(aClass, bClass) then
      var fp := |a.edges - b.edges|;
      var fn := |b.edges - a.edges|;
      assert |SymDiff(a.edges, b.edges)| == fp + fn by {
        assert (a.edges - b.edges) !! (b.edges - a.edges);
      }
      assert fp + fn == 0 ==> a.edges - b.edges == {} && b.edges - a.edges == {};
      Success(fp + fn)
    else Failure(IncomparableStructure)
  }

  /** Distance between two DAGs of the same class. */
  function Shd(a: Dag, b: Dag): nat {
    Subtract(a, DagClass, b, DagClass).value
  }

  lemma ShdSymmetric(a: Dag, b: Dag)
    ensures Shd(a, b) == Shd(b, a)
  {
    assert SymDiff(a.edges, b.edges) == SymDiff(b.edges, a.edges);
  }

  lemma ShdSelf(a: Dag)
    ensures Shd(a, a) == 0
  {
  }

  /** The distance is a metric on edge sets: it obeys the triangle inequality. */
  lemma ShdTriangle(a: Dag, b: Dag, c: Dag)
    ensures Shd(a, c) <= Shd(a, b) + Shd(b, c)
  {
    var ab, bc, ac := SymDiff(a.edges, b.edges), SymDiff(b.edges, c.edges), SymDiff(a.edges, c.edges);
    assert ac <= ab + bc;
    CardSubset(ac, ab + bc);
    CardUnion(ab, bc);
  }

  lemma CardSubset<T>(a: set<T>, b: set<T>)
    requires a <= b
    ensures |a| <= |b|
  {
    assert b == a + (b - a);
  }

  lemma CardUnion<T>(a: set<T>, b: set<T>)
    ensures |a + b| <= |a| + |b|
  {
    assert a + b == a + (b - a);
    CardSubset(b - a, b);
  }

  /** The worked example in the module's main block. */
  lemma ShdExample()
    ensures Shd(Dag(["a", "b", "c"], {("a", "b"), ("c", "b")}),
                Dag(["a", "b", "c"], {("a", "b"), ("b", "c")})) == 2
  {
    var d1, d2 := {("a", "b"), ("c", "b")}, {("a", "b"), ("b", "c")};
    assert ("c", "b") != ("a", "b") && ("b", "c") != ("a", "b");
    assert d1 - d2 == {("c", "b")};
    assert d2 - d1 == {("b", "c")};
  }

  /** A DAG minus an order graph is refused; the other way round is allowed,
      because an order graph is a DAG. */
  lemma SubtractClassCheck(a: Dag, b: Dag)
    ensures Subtract(a, DagClass, b, OrderGraphClass).Failure?
    ensures Subtract(b, OrderGraphClass, a, DagClass).Success?
  {
  }
}
