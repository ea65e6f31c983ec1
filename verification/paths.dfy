/** Directed paths, reachability and acyclicity over an edge set, with the
    two graph algorithms the engine relies on: the set of nodes reachable
    from a start node (networkx `has_path`) and a topological sort that
    either orders the nodes or exhibits a directed cycle (networkx
    `find_cycle`). */
module Paths {
  import opened Base

  /** p is a walk along edges of E (a single node is a path of no edges). */
  ghost predicate IsPath(E: set<Edge>, p: seq<Var>) {
    |p| >= 1 && forall i :: 0 <= i < |p| - 1 ==> (p[i], p[i + 1]) in E
  }

  ghost predicate PathFromTo(E: set<Edge>, p: seq<Var>, a: Var, b: Var) {
    IsPath(E, p) && p[0] == a && p[|p| - 1] == b
  }

  ghost predicate Reaches(E: set<Edge>, a: Var, b: Var) {
    exists p :: PathFromTo(E, p, a, b)
  }

  /** A closed walk of at least one edge. */
  ghost predicate IsCycle(E: set<Edge>, c: seq<Var>) {
    IsPath(E, c) && |c| >= 2 && c[0] == c[|c| - 1]
  }

  ghost predicate Acyclic(E: set<Edge>) {
    forall c :: !IsCycle(E, c)
  }

  /** Every edge endpoint is one of the nodes (true of every networkx graph). */
  ghost predicate Closed(ns: seq<Var>, E: set<Edge>) {
    forall e :: e in E ==> e.0 in ns && e.1 in ns
  }

  /** Every edge between nodes of q goes forward in q. */
  ghost predicate TopoOrder(q: seq<Var>, E: set<Edge>) {
    forall i, j :: 0 <= i < |q| && 0 <= j < |q| && (q[i], q[j]) in E ==> i < j
  }

  // ---------------------------------------------------------------------
  // Path algebra

  lemma ReachesRefl(E: set<Edge>, a: Var)
    ensures Reaches(E, a, a)
  {
    assert PathFromTo(E, [a], a, a);
  }

  lemma ReachesStep(E: set<Edge>, a: Var, b: Var, c: Var)
    requires Reaches(E, a, b) && (b, c) in E
    ensures Reaches(E, a, c)
  {
    var p :| PathFromTo(E, p, a, b);
    assert PathFromTo(E, p + [c], a, c);
  }

  lemma ReachesEdge(E: set<Edge>, a: Var, b: Var)
    requires (a, b) in E
    ensures Reaches(E, a, b)
  {
    ReachesRefl(E, a);
    ReachesStep(E, a, a, b);
  }

  lemma ReachesPrepend(E: set<Edge>, a: Var, b: Var, c: Var)
    requires (a, b) in E && Reaches(E, b, c)
    ensures Reaches(E, a, c)
  {
    var p :| PathFromTo(E, p, b, c);
    assert PathFromTo(E, [a] + p, a, c);
  }

  lemma ReachesTrans(E: set<Edge>, a: Var, b: Var, c: Var)
    requires Reaches(E, a, b) && Reaches(E, b, c)
    ensures Reaches(E, a, c)
  {
    var p :| PathFromTo(E, p, a, b);
    var q :| PathFromTo(E, q, b, c);
    var r := p + q[1..];
    assert PathFromTo(E, r, a, c) by {
      forall i | 0 <= i < |r| - 1 ensures (r[i], r[i + 1]) in E {
        if i < |p| - 1 {
        } else if i == |p| - 1 {
          assert r[i] == q[0] && r[i + 1] == q[1];
        } else {
          assert r[i] == q[i - |p| + 1] && r[i + 1] == q[i - |p| + 2];
        }
      }
    }
  }

  lemma ReachesMono(E: set<Edge>, F: set<Edge>, a: Var, b: Var)
    requires E <= F && Reaches(E, a, b)
    ensures Reaches(F, a, b)
  {
    var p :| PathFromTo(E, p, a, b);
    assert PathFromTo(F, p, a, b);
  }

  /** The tail of a path of at least one edge is a path. */
  lemma PathTail(E: set<Edge>, p: seq<Var>)
    requires IsPath(E, p) && |p| >= 2
    ensures PathFromTo(E, p[1..], p[1], p[|p| - 1]) && (p[0], p[1]) in E
  {
  }

  /** Acyclicity is the absence of an edge whose target reaches its source. */
  lemma AcyclicIffNoBackEdge(E: set<Edge>)
    ensures Acyclic(E) <==> forall x, y :: (x, y) in E ==> !Reaches(E, y, x)
  {
    if !Acyclic(E) {
      var c :| IsCycle(E, c);
      PathTail(E, c);
      assert Reaches(E, c[1], c[0]);
    }
    if exists x, y :: (x, y) in E && Reaches(E, y, x) {
      var x, y :| (x, y) in E && Reaches(E, y, x);
      var p :| PathFromTo(E, p, y, x);
      assert IsCycle(E, [x] + p);
    }
  }

  lemma AcyclicSubset(E: set<Edge>, F: set<Edge>)
    requires F <= E && Acyclic(E)
    ensures Acyclic(F)
  {
    forall c | IsCycle(F, c) ensures false {
      assert IsCycle(E, c);
    }
  }

  /** A path using the new edge (u, v) reaches u first by old edges, and
      continues from v. */
  lemma {:induction false} SplitAtNewEdge(E: set<Edge>, u: Var, v: Var, p: seq<Var>)
    requires IsPath(E + {(u, v)}, p)
    ensures Reaches(E, p[0], p[|p| - 1])
         || (Reaches(E, p[0], u) && Reaches(E, v, p[|p| - 1]))
  {
    if |p| == 1 {
      ReachesRefl(E, p[0]);
    } else {
      var p' := p[..|p| - 1];
      var y, b := p[|p| - 2], p[|p| - 1];
      assert IsPath(E + {(u, v)}, p');
      SplitAtNewEdge(E, u, v, p');
      if (y, b) in E {
        if Reaches(E, p[0], y) {
          ReachesStep(E, p[0], y, b);
        } else {
          ReachesStep(E, v, y, b);
        }
      } else {
        assert y == u && b == v;
        ReachesRefl(E, v);
      }
    }
  }

  /** Adding (u, v) keeps a graph acyclic when v does not reach u. */
  lemma AddEdgeAcyclic(E: set<Edge>, u: Var, v: Var)
    requires Acyclic(E) && !Reaches(E, v, u)
    ensures Acyclic(E + {(u, v)})
  {
    var F := E + {(u, v)};
    AcyclicIffNoBackEdge(E);
    forall x, y | (x, y) in F ensures !Reaches(F, y, x) {
      if Reaches(F, y, x) {
        var p :| PathFromTo(F, p, y, x);
        SplitAtNewEdge(E, u, v, p);
        if (x, y) in E && Reaches(E, y, u) && Reaches(E, v, x) {
          ReachesPrepend(E, x, y, u);
          ReachesTrans(E, v, x, u);
        }
      }
    }
    AcyclicIffNoBackEdge(F);
  }

  // ---------------------------------------------------------------------
  // Reachable set (networkx has_path)

  /** Some edge goes from a node of S to y. */
  predicate EdgeFrom(E: set<Edge>, S: set<Var>, y: Var) {
    exists x :: x in S && (x, y) in E
  }

  /** Nodes of ns that are targets of an edge leaving S. */
  function Successors(ns: seq<Var>, E: set<Edge>, S: set<Var>): (r: set<Var>)
    ensures forall y :: y in r <==> y in ns && EdgeFrom(E, S, y)
  {
    set y | y in ns && EdgeFrom(E, S, y)
  }

  /** Some node of S reaches y. */
  ghost predicate ReachableFrom(E: set<Edge>, S: set<Var>, y: Var) {
    exists s :: s in S && Reaches(E, s, y)
  }

  lemma ReachableFromGrow(ns: seq<Var>, E: set<Edge>, S: set<Var>, y: Var)
    requires ReachableFrom(E, S + Successors(ns, E, S), y)
    ensures ReachableFrom(E, S, y)
  {
    var s' :| s' in S + Successors(ns, E, S) && Reaches(E, s', y);
    if s' !in S {
      assert EdgeFrom(E, S, s');
      var x :| x in S && (x, s') in E;
      ReachesPrepend(E, x, s', y);
    }
  }

  /** Least superset of S closed under successors inside ns. */
  function Closure(ns: seq<Var>, E: set<Edge>, S: set<Var>): (R: set<Var>)
    requires S <= Elems(ns)
    ensures S <= R <= Elems(ns)
    ensures forall x, y :: x in R && (x, y) in E && y in ns ==> y in R
    decreases Elems(ns) - S
  {
    var S' := S + Successors(ns, E, S);
    if S' == S then S
    else
      assert Elems(ns) - S' < Elems(ns) - S;
      Closure(ns, E, S')
  }

  /** Everything in the closure is reachable from the start set. */
  lemma {:induction false} ClosureSound(ns: seq<Var>, E: set<Edge>, S: set<Var>, y: Var)
    requires S <= Elems(ns) && y in Closure(ns, E, S)
    ensures ReachableFrom(E, S, y)
    decreases Elems(ns) - S
  {
    var S' := S + Successors(ns, E, S);
    if S' == S {
      ReachesRefl(E, y);
    } else {
      assert Elems(ns) - S' < Elems(ns) - S;
      ClosureSound(ns, E, S', y);
      ReachableFromGrow(ns, E, S, y);
    }
  }

  lemma {:induction false} ClosedSetContainsPath(ns: seq<Var>, E: set<Edge>, R: set<Var>, p: seq<Var>)
    requires Closed(ns, E)
    requires forall x, y :: x in R && (x, y) in E && y in ns ==> y in R
    requires IsPath(E, p) && p[0] in R
    ensures p[|p| - 1] in R
  {
    if |p| > 1 {
      var p' := p[..|p| - 1];
      assert IsPath(E, p');
      ClosedSetContainsPath(ns, E, R, p');
      assert (p[|p| - 2], p[|p| - 1]) in E;
    }
  }

  /** Whether b is reachable from a (networkx `has_path(a, b)`). */
  function HasPath(ns: seq<Var>, E: set<Edge>, a: Var, b: Var): (r: bool)
    requires Closed(ns, E) && a in ns
    ensures r <==> Reaches(E, a, b)
  {
    var R := Closure(ns, E, {a});
    if b in R then
      ClosureSound(ns, E, {a}, b);
      true
    else
      assert !Reaches(E, a, b) by {
        if Reaches(E, a, b) {
          var p :| PathFromTo(E, p, a, b);
          ClosedSetContainsPath(ns, E, R, p);
        }
      }
      false
  }

  // ---------------------------------------------------------------------
  // Topological sort with a cycle witness (networkx find_cycle)

  datatype SortOutcome = Order(order: seq<Var>) | Cycle(cycle: seq<Var>)

  predicate HasPredIn(R: seq<Var>, E: set<Edge>, x: Var) {
    exists j :: 0 <= j < |R| && (R[j], x) in E
  }

  /** First position from k on whose node has no predecessor in R. */
  function FirstSource(R: seq<Var>, E: set<Edge>, k: nat): (i: nat)
    requires k <= |R|
    ensures k <= i <= |R|
    ensures i < |R| ==> !HasPredIn(R, E, R[i])
    ensures forall m :: k <= m < i ==> HasPredIn(R, E, R[m])
    decreases |R| - k
  {
    if k == |R| then k
    else if !HasPredIn(R, E, R[k]) then k
    else FirstSource(R, E, k + 1)
  }

  /** First position from k on whose node is a predecessor of x. */
  function FirstPred(R: seq<Var>, E: set<Edge>, x: Var, k: nat): (j: nat)
    requires k <= |R|
    requires exists m :: k <= m < |R| && (R[m], x) in E
    ensures k <= j < |R| && (R[j], x) in E
    decreases |R| - k
  {
    if (R[k], x) in E then k else FirstPred(R, E, x, k + 1)
  }

  /** Walks backwards along predecessors, all inside R, until a node repeats;
      vis is a forward path ending where the walk started. */
  function Walk(R: seq<Var>, E: set<Edge>, vis: seq<Var>): (c: seq<Var>)
    requires IsPath(E, vis) && Elems(vis) <= Elems(R)
    requires forall m :: 0 <= m < |R| ==> HasPredIn(R, E, R[m])
    ensures IsCycle(E, c) && Elems(c) <= Elems(R)
    decreases Elems(R) - Elems(vis)
  {
    assert vis[0] in Elems(R);
    var m :| 0 <= m < |R| && R[m] == vis[0];
    assert HasPredIn(R, E, R[m]);
    var p := R[FirstPred(R, E, vis[0], 0)];
    if p in vis then
      var k := IndexOf(vis, p);
      var c := [p] + vis[..k + 1];
      assert IsPath(E, c) by {
        forall i | 0 <= i < |c| - 1 ensures (c[i], c[i + 1]) in E {
          if i > 0 { assert c[i] == vis[i - 1] && c[i + 1] == vis[i]; }
        }
      }
      c
    else
      var vis' := [p] + vis;
      assert IsPath(E, vis') by {
        forall i | 0 <= i < |vis'| - 1 ensures (vis'[i], vis'[i + 1]) in E {
          if i > 0 { assert vis'[i] == vis[i - 1] && vis'[i + 1] == vis[i]; }
        }
      }
      assert Elems(vis') == Elems(vis) + {p};
      Walk(R, E, vis')
  }

  /** Kahn's algorithm: repeatedly take out the first node without a
      predecessor among the remaining ones; when none is left, walk back
      along predecessors to a cycle. */
  function TopoSort(R: seq<Var>, E: set<Edge>): (r: SortOutcome)
    ensures r.Order? ==> Elems(r.order) == Elems(R) && TopoOrder(r.order, E)
    ensures r.Order? && Distinct(R) ==> Distinct(r.order) && |r.order| == |R|
    ensures r.Cycle? ==> IsCycle(E, r.cycle) && Elems(r.cycle) <= Elems(R)
    decreases |R|
  {
    if R == [] then Order([])
    else
      var i := FirstSource(R, E, 0);
      if i < |R| then
        var R' := RemoveAt(R, i);
        match TopoSort(R', E)
        case Cycle(c) =>
          RemoveAtSubset(R, i);
          Cycle(c)
        case Order(rest) =>
          SourceFirst(R, E, i, rest);
          Order([R[i]] + rest)
      else
        Cycle(Walk(R, E, [R[0]]))
  }

  lemma RemoveAtSubset(R: seq<Var>, i: nat)
    requires i < |R|
    ensures Elems(R) == Elems(RemoveAt(R, i)) + {R[i]}
  {
    var R' := RemoveAt(R, i);
    forall x | x in Elems(R) ensures x in Elems(R') + {R[i]} {
      var k :| 0 <= k < |R| && R[k] == x;
      if k < i { assert R'[k] == x; } else if k > i { assert R'[k - 1] == x; }
    }
  }

  /** Putting a source of R in front of a topological order of the rest of
      R gives a topological order of R. */
  lemma SourceFirst(R: seq<Var>, E: set<Edge>, i: nat, rest: seq<Var>)
    requires i < |R| && !HasPredIn(R, E, R[i])
    requires Elems(rest) == Elems(RemoveAt(R, i)) && TopoOrder(rest, E)
    requires Distinct(RemoveAt(R, i)) ==> Distinct(rest) && |rest| == |RemoveAt(R, i)|
    ensures Elems([R[i]] + rest) == Elems(R) && TopoOrder([R[i]] + rest, E)
    ensures Distinct(R) ==> Distinct([R[i]] + rest) && |[R[i]] + rest| == |R|
  {
    RemoveAtSubset(R, i);
    var q := [R[i]] + rest;
    forall a | 0 <= a < |q| ensures (q[a], R[i]) !in E {
      assert q[a] in Elems(R);
      var j :| 0 <= j < |R| && R[j] == q[a];
    }
    forall a, b | 0 <= a < |q| && 0 <= b < |q| && (q[a], q[b]) in E ensures a < b {
      if b > 0 && a > 0 {
        assert (rest[a - 1], rest[b - 1]) in E;
      }
    }
    if Distinct(R) {
      RemoveAtElems(R, i);
      assert R[i] !in Elems(rest);
    }
  }

  /** Edges between nodes of a topological order all go forward, so a
      closed walk over them cannot return. */
  lemma {:induction false} TopoOrderForward(q: seq<Var>, E: set<Edge>, p: seq<Var>)
    requires TopoOrder(q, E) && IsPath(E, p) && |p| >= 2
    requires forall k :: 0 <= k < |p| ==> p[k] in q
    ensures IndexOf(q, p[0]) < IndexOf(q, p[|p| - 1])
  {
    assert (q[IndexOf(q, p[0])], q[IndexOf(q, p[1])]) in E;
    if |p| > 2 {
      TopoOrderForward(q, E, p[1..]);
    }
  }

  lemma TopoOrderAcyclic(q: seq<Var>, E: set<Edge>)
    requires TopoOrder(q, E) && Closed(q, E)
    ensures Acyclic(E)
  {
    forall c | IsCycle(E, c) ensures false {
      forall k | 0 <= k < |c| ensures c[k] in q {
        if k < |c| - 1 { assert (c[k], c[k + 1]) in E; }
        else { assert (c[k - 1], c[k]) in E; }
      }
      TopoOrderForward(q, E, c);
    }
  }

  /** The sort orders the nodes exactly when the graph has no cycle. */
  lemma TopoSortDecides(ns: seq<Var>, E: set<Edge>)
    requires Closed(ns, E)
    ensures TopoSort(ns, E).Order? <==> Acyclic(E)
  {
    match TopoSort(ns, E)
    case Order(q) =>
      assert Closed(q, E) by {
        forall e | e in E ensures e.0 in q && e.1 in q {
          assert e.0 in Elems(ns) && e.1 in Elems(ns);
        }
      }
      TopoOrderAcyclic(q, E);
    case Cycle(c) =>
  }

  // ---------------------------------------------------------------------
  // Simple paths (networkx all_simple_paths)

  /** There is a simple path from u to v through at least one intermediate
      node: the flip guard of the hill climber. */
  ghost predicate HasLongSimplePath(E: set<Edge>, u: Var, v: Var) {
    exists p :: PathFromTo(E, p, u, v) && Distinct(p) && |p| > 2
  }

  /** Cutting out the loop between two visits of the same node. */
  lemma CutLoop(E: set<Edge>, p: seq<Var>, i: nat, j: nat)
    requires IsPath(E, p) && i < j < |p| && p[i] == p[j]
    ensures PathFromTo(E, p[..i] + p[j..], p[0], p[|p| - 1])
  {
    var r := p[..i] + p[j..];
    forall k | 0 <= k < |r| - 1 ensures (r[k], r[k + 1]) in E {
      if k < i - 1 {
        assert r[k] == p[k] && r[k + 1] == p[k + 1];
      } else if k == i - 1 {
        assert r[k] == p[i - 1] && r[k + 1] == p[j] && p[j] == p[i];
      } else {
        assert r[k] == p[k - i + j] && r[k + 1] == p[k - i + j + 1];
      }
    }
  }

  /** Every walk can be shortened to a simple path with the same ends. */
  lemma {:induction false} SimplifyPath(E: set<Edge>, p: seq<Var>) returns (s: seq<Var>)
    requires IsPath(E, p)
    ensures PathFromTo(E, s, p[0], p[|p| - 1]) && Distinct(s)
    decreases |p|
  {
    if Distinct(p) {
      s := p;
    } else {
      var i, j :| 0 <= i < j < |p| && p[i] == p[j];
      CutLoop(E, p, i, j);
      s := SimplifyPath(E, p[..i] + p[j..]);
    }
  }

  /** For an edge (u, v), a simple u-v path through another node exists
      exactly when u still reaches v once the edge itself is removed. */
  lemma LongSimplePathIff(E: set<Edge>, u: Var, v: Var)
    requires (u, v) in E && u != v
    ensures HasLongSimplePath(E, u, v) <==> Reaches(E - {(u, v)}, u, v)
  {
    var F := E - {(u, v)};
    if HasLongSimplePath(E, u, v) {
      var p :| PathFromTo(E, p, u, v) && Distinct(p) && |p| > 2;
      forall k | 0 <= k < |p| - 1 ensures (p[k], p[k + 1]) in F {
        if k == 0 {
          assert p[1] != p[|p| - 1];
        } else {
          assert p[k] != p[0];
        }
      }
      assert PathFromTo(F, p, u, v);
    }
    if Reaches(F, u, v) {
      var p :| PathFromTo(F, p, u, v);
      var s := SimplifyPath(F, p);
      assert |s| >= 2;
      assert (s[0], s[1]) in F;
      assert s[1] != s[|s| - 1];
      assert PathFromTo(E, s, u, v);
    }
  }
}
