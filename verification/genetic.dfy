/** The bookkeeping of the genetic search in bnsl/heuristic.py (class
    Genetic): a population of genomes kept sorted by score, rank-based
    selection, refilling with freshly generated genomes, and the decoding of a genome
    (a flattened n x n adjacency matrix) into a DAG. The random draws (the
    selected indices and the freshly generated genomes) are parameters. */
module Genetic {
  import opened Base
  import opened Paths
  import opened DirectGraph

  /** One row of the population frame: a genome and its score. */
  datatype Individual = Individual(genome: seq<int>, score: real)

  /** Best score first, as sort_values(by='score', ascending=False) leaves it. */
  predicate Sorted(pop: seq<Individual>) {
    forall i, j :: 0 <= i < j < |pop| ==> pop[i].score >= pop[j].score
  }

  // ---------------------------------------------------------------------
  // Sorting by score

  /** Puts x in front of the first individual scoring strictly less. */
  function Insert(x: Individual, pop: seq<Individual>): (r: seq<Individual>)
    ensures |r| == |pop| + 1 && multiset(r) == multiset(pop) + multiset{x}
    ensures forall y :: y in r <==> y == x || y in pop
  {
    if pop == [] || x.score >= pop[0].score then [x] + pop
    else
      assert pop == [pop[0]] + pop[1..];
      [pop[0]] + Insert(x, pop[1..])
  }

  /** Inserting into a sorted population keeps it sorted. */
  lemma {:induction false} InsertSorted(x: Individual, pop: seq<Individual>)
    requires Sorted(pop)
    ensures Sorted(Insert(x, pop))
  {
    if pop == [] || x.score >= pop[0].score {
      InsertFront(x, pop);
    } else {
      InsertSorted(x, pop[1..]);
      InsertBehind(x, pop);
    }
  }

  lemma InsertFront(x: Individual, pop: seq<Individual>)
    requires Sorted(pop) && (pop == [] || x.score >= pop[0].score)
    ensures Sorted([x] + pop)
  {
    var r := [x] + pop;
    forall i, j | 0 <= i < j < |r| ensures r[i].score >= r[j].score {
      assert r[j] == pop[j - 1];
      if i > 0 { assert r[i] == pop[i - 1]; }
    }
  }

  lemma InsertBehind(x: Individual, pop: seq<Individual>)
    requires Sorted(pop) && pop != [] && x.score < pop[0].score
    requires Sorted(Insert(x, pop[1..]))
    ensures Sorted([pop[0]] + Insert(x, pop[1..]))
  {
    var rest := Insert(x, pop[1..]);
    HeadIsBest(pop);
    forall y | y in rest ensures pop[0].score >= y.score {
      assert y == x || y in pop[1..];
    }
    ConsSorted(pop[0], rest);
  }

  lemma HeadIsBest(pop: seq<Individual>)
    requires Sorted(pop) && pop != []
    ensures forall y :: y in pop[1..] ==> pop[0].score >= y.score
  {
    forall y | y in pop[1..] ensures pop[0].score >= y.score {
      var k :| 0 <= k < |pop[1..]| && pop[1..][k] == y;
      assert pop[k + 1] == y;
    }
  }

  lemma ConsSorted(x: Individual, rest: seq<Individual>)
    requires Sorted(rest) && forall y :: y in rest ==> x.score >= y.score
    ensures Sorted([x] + rest)
  {
    var r := [x] + rest;
    forall i, j | 0 <= i < j < |r| ensures r[i].score >= r[j].score {
      assert r[j] == rest[j - 1];
      if i > 0 { assert r[i] == rest[i - 1]; } else { assert rest[j - 1] in rest; }
    }
  }

  /** The population sorted by score, best first. */
  function SortDesc(pop: seq<Individual>): (r: seq<Individual>)
    ensures Sorted(r) && multiset(r) == multiset(pop) && |r| == |pop|
  {
    if pop == [] then []
    else
      assert pop == [pop[0]] + pop[1..];
      var rest := SortDesc(pop[1..]);
      InsertSorted(pop[0], rest);
      Insert(pop[0], rest)
  }

  /** Sorting an already sorted population changes nothing. */
  lemma {:induction false} SortDescSorted(pop: seq<Individual>)
    requires Sorted(pop)
    ensures SortDesc(pop) == pop
  {
    if pop != [] {
      SortDescSorted(pop[1..]);
      assert pop == [pop[0]] + pop[1..];
    }
  }

  // ---------------------------------------------------------------------
  // Rank-based selection

  /** The sum of a list of weights. */
  function SumReals(xs: seq<real>): real {
    if xs == [] then 0.0 else xs[0] + SumReals(xs[1..])
  }

  /** (n - (i + 1)) / d for the ranks i = 0 .. n - 1. */
  function Ramp(n: nat, d: real): (r: seq<real>)
    requires d != 0.0
    ensures |r| == n
  {
    seq(n, i requires 0 <= i < n => (n - (i + 1)) as real / d)
  }

  /** The probability list of select: rank i of N has weight
      (N - (i + 1)) / ((N - 1) * N / 2); with one genome the denominator is
      zero and the division fails. */
  function SelectionWeights(n: nat): (r: Result<seq<real>>)
    ensures r.Failure? <==> n == 1
    ensures r.Failure? ==> r.error == ZeroDivision
    ensures r.Success? ==> |r.value| == n
  {
    if n == 1 then Failure(ZeroDivision)
    else if n == 0 then Success([])
    else
      assert (n - 1) * n > 0;
      Success(Ramp(n, ((n - 1) * n) as real / 2.0))
  }

  lemma {:induction false} RampSum(n: nat, d: real)
    requires d != 0.0
    ensures SumReals(Ramp(n, d)) == ((n * (n - 1)) as real / 2.0) / d
  {
    if n > 0 {
      var r := Ramp(n, d);
      assert r[1..] == Ramp(n - 1, d);
      RampSum(n - 1, d);
      assert n * (n - 1) == (n - 1) * (n - 2) + 2 * (n - 1);
    }
  }

  /** The weights form a probability distribution that strictly favours
      better ranks and never picks the last one. */
  lemma SelectionWeightsDistribution(n: nat)
    requires n >= 2
    ensures SelectionWeights(n).Success?
    ensures var w := SelectionWeights(n).value;
      && (forall i :: 0 <= i < n ==> w[i] >= 0.0)
      && (forall i, j :: 0 <= i < j < n ==> w[i] > w[j])
      && w[n - 1] == 0.0
      && SumReals(w) == 1.0
  {
    var d := ((n - 1) * n) as real / 2.0;
    assert (n - 1) * n > 0;
    assert d > 0.0;
    var w := SelectionWeights(n).value;
    assert w == Ramp(n, d);
    RampShape(n, d);
    RampSum(n, d);
    assert ((n * (n - 1)) as real / 2.0) == d;
  }

  lemma RampShape(n: nat, d: real)
    requires n >= 1 && d > 0.0
    ensures var w := Ramp(n, d);
      && (forall i :: 0 <= i < n ==> w[i] >= 0.0)
      && (forall i, j :: 0 <= i < j < n ==> w[i] > w[j])
      && w[n - 1] == 0.0
  {
    var w := Ramp(n, d);
    forall i, j | 0 <= i < j < n ensures w[i] > w[j] {
      DivLess((n - (j + 1)) as real, (n - (i + 1)) as real, d);
    }
    forall i | 0 <= i < n ensures w[i] >= 0.0 {
      DivNonNeg((n - (i + 1)) as real, d);
    }
  }

  lemma DivNonNeg(a: real, d: real)
    requires a >= 0.0 && d > 0.0
    ensures a / d >= 0.0
  {
  }

  lemma DivLess(a: real, b: real, d: real)
    requires a < b && d > 0.0
    ensures a / d < b / d
  {
    assert b / d - a / d == (b - a) / d;
  }

  /** The drawn indices below n. */
  function Below(chosen: set<nat>, n: nat): set<nat> {
    set i | i in chosen && i < n
  }

  /** The drawn indices below n, in increasing order. */
  function Indices(chosen: set<nat>, n: nat): (r: seq<nat>)
    ensures forall k :: 0 <= k < |r| ==> r[k] < n
    ensures forall j, k :: 0 <= j < k < |r| ==> r[j] < r[k]
  {
    if n == 0 then []
    else Indices(chosen, n - 1) + (if n - 1 in chosen then [n - 1] else [])
  }

  /** Indices lists every drawn index below n, and only those. */
  lemma {:induction false} IndicesAreDrawn(chosen: set<nat>, n: nat)
    ensures |Indices(chosen, n)| == |Below(chosen, n)|
    ensures forall i :: i in Indices(chosen, n) <==> i in chosen && i < n
  {
    if n == 0 {
      assert Below(chosen, n) == {};
    } else {
      IndicesAreDrawn(chosen, n - 1);
      KeepCount(chosen, n - 1);
    }
  }

  /** The rows whose index was drawn, in their original order: the mask
      pop.index.isin(selected). */
  function Keep(pop: seq<Individual>, chosen: set<nat>): (r: seq<Individual>)
    ensures |r| == |Below(chosen, |pop|)| && |r| == |Indices(chosen, |pop|)|
    ensures forall k :: 0 <= k < |r| ==> r[k] == pop[Indices(chosen, |pop|)[k]]
    ensures forall x :: x in r <==> exists i :: i in chosen && i < |pop| && pop[i] == x
    ensures Sorted(pop) ==> Sorted(r)
    decreases |pop|
  {
    if pop == [] then
      assert Below(chosen, |pop|) == {};
      []
    else
      var n := |pop| - 1;
      var front := pop[..n];
      var rest := Keep(front, chosen);
      KeepCount(chosen, n);
      assert forall i :: 0 <= i < n ==> front[i] == pop[i];
      var r := rest + (if n in chosen then [pop[n]] else []);
      KeepIndexStep(pop, chosen, rest, r);
      KeepStep(pop, chosen, rest, r);
      r
  }

  /** The index step of Keep: appending the last row when its index was
      drawn follows the drawn indices. */
  lemma KeepIndexStep(pop: seq<Individual>, chosen: set<nat>, rest: seq<Individual>, r: seq<Individual>)
    requires |pop| > 0
    requires var n := |pop| - 1;
      && |rest| == |Indices(chosen, n)|
      && (forall k :: 0 <= k < |rest| ==> rest[k] == pop[..n][Indices(chosen, n)[k]])
      && r == rest + (if n in chosen then [pop[n]] else [])
    ensures |r| == |Indices(chosen, |pop|)|
    ensures forall k :: 0 <= k < |r| ==> r[k] == pop[Indices(chosen, |pop|)[k]]
  {
    var n := |pop| - 1;
    var ix := Indices(chosen, |pop|);
    assert ix == Indices(chosen, n) + (if n in chosen then [n] else []);
    forall k | 0 <= k < |r| ensures r[k] == pop[ix[k]] {
      if k < |rest| {
        assert r[k] == pop[..n][Indices(chosen, n)[k]];
      }
    }
  }

  /** The membership and order step of Keep: the kept rows are the drawn
      ones, and a sorted population keeps them sorted. */
  lemma KeepStep(pop: seq<Individual>, chosen: set<nat>, rest: seq<Individual>, r: seq<Individual>)
    requires |pop| > 0
    requires var n := |pop| - 1;
      && (forall x :: x in rest <==> exists i :: i in chosen && i < n && pop[..n][i] == x)
      && (Sorted(pop[..n]) ==> Sorted(rest))
      && r == rest + (if n in chosen then [pop[n]] else [])
    ensures forall x :: x in r <==> exists i :: i in chosen && i < |pop| && pop[i] == x
    ensures Sorted(pop) ==> Sorted(r)
  {
    var n := |pop| - 1;
    var front := pop[..n];
    assert forall i :: 0 <= i < n ==> front[i] == pop[i];
    forall x | x in r ensures exists i :: i in chosen && i < |pop| && pop[i] == x {
      if x in rest {
        var i :| i in chosen && i < n && front[i] == x;
        assert pop[i] == x;
      }
    }
    forall x | exists i :: i in chosen && i < |pop| && pop[i] == x ensures x in r {
      var i :| i in chosen && i < |pop| && pop[i] == x;
      if i < n {
        assert front[i] == x;
      }
    }
    if Sorted(pop) {
      assert Sorted(front);
      if n in chosen {
        forall y | y in rest ensures y.score >= pop[n].score {
          var i :| i in chosen && i < n && front[i] == y;
        }
      }
    }
  }

  lemma KeepCount(chosen: set<nat>, n: nat)
    ensures |Below(chosen, n + 1)| == |Below(chosen, n)| + (if n in chosen then 1 else 0)
  {
    var a, b := Below(chosen, n), Below(chosen, n + 1);
    if n in chosen {
      assert b == a + {n};
    } else {
      assert b == a;
    }
  }

  /** Genetic.select(k): the k drawn rows, kept in order. np.random.choice
      without replacement draws k distinct indices of positive weight,
      which excludes the last rank; it refuses weights that do not sum to
      1, as the empty weight list of an empty population does. */
  function Select(pop: seq<Individual>, chosen: set<nat>): (r: Result<seq<Individual>>)
    requires forall i :: i in chosen ==> i + 1 < |pop|
    ensures r.Failure? <==> |pop| <= 1
    ensures |pop| == 0 ==> r == Failure(NotDistribution)
    ensures |pop| == 1 ==> r == Failure(ZeroDivision)
    ensures r.Success? ==> |r.value| == |chosen| && r.value == Keep(pop, chosen)
    ensures r.Success? ==> forall x :: x in r.value <==> exists i :: i in chosen && pop[i] == x
    ensures r.Success? && Sorted(pop) ==> Sorted(r.value)
  {
    var w :- SelectionWeights(|pop|);
    if SumReals(w) != 1.0 then
      assert |pop| < 2 by {
        if |pop| >= 2 { SelectionWeightsDistribution(|pop|); }
      }
      Failure(NotDistribution)
    else
      assert Below(chosen, |pop|) == chosen;
      Success(Keep(pop, chosen))
  }

  // ---------------------------------------------------------------------
  // Crossover

  /** The genome of row i of pop is crossed with that of row partners[i];
      zip cuts the child to the shorter of the two, and reshaping it to n
      by n fails unless its length is n * n. */
  predicate BadChild(pop: seq<Individual>, n: nat, partners: seq<nat>, i: nat) {
    && i < |pop| && i < |partners| && partners[i] < |pop|
    && var x, y := pop[i].genome, pop[partners[i]].genome;
       (if |x| <= |y| then |x| else |y|) != n * n
  }

  /** Every genome of pop has n * n entries. */
  predicate WellShaped(pop: seq<Individual>, n: nat) {
    forall x :: x in pop ==> |x.genome| == n * n
  }

  /** Genetic.crossover: row by row, a child of the row and its drawn
      partner is built and reshaped to n by n, which raises on a child of
      the wrong length. A child that passes is never added (the result of
      pd.concat is discarded), so on success the population is the one
      given. */
  function Crossover(pop: seq<Individual>, n: nat, partners: seq<nat>): (r: Result<seq<Individual>>)
    requires |partners| == |pop| && forall k :: 0 <= k < |partners| ==> partners[k] < |pop|
    ensures r.Failure? <==> exists i :: BadChild(pop, n, partners, i)
    ensures r.Failure? ==> r.error == BadReshape
    ensures r.Success? ==> r.value == pop
  {
    CrossoverFrom(pop, n, partners, 0)
  }

  /** The rows of crossover from row i on. */
  function CrossoverFrom(pop: seq<Individual>, n: nat, partners: seq<nat>, i: nat): (r: Result<seq<Individual>>)
    requires i <= |pop| && |partners| == |pop| && forall k :: 0 <= k < |partners| ==> partners[k] < |pop|
    ensures r.Failure? <==> exists k :: i <= k && BadChild(pop, n, partners, k)
    ensures r.Failure? ==> r.error == BadReshape
    ensures r.Success? ==> r.value == pop
    decreases |pop| - i
  {
    if i == |pop| then Success(pop)
    else if BadChild(pop, n, partners, i) then Failure(BadReshape)
    else CrossoverFrom(pop, n, partners, i + 1)
  }

  /** Crossover on genomes of n * n entries never fails. */
  lemma CrossoverShaped(pop: seq<Individual>, n: nat, partners: seq<nat>)
    requires |partners| == |pop| && forall k :: 0 <= k < |partners| ==> partners[k] < |pop|
    requires WellShaped(pop, n)
    ensures Crossover(pop, n, partners) == Success(pop)
  {
  }

  /** Genetic.add_pop: the newly generated genomes appended, then everything sorted
      by score. */
  function AddPop(pop: seq<Individual>, born: seq<Individual>): (r: seq<Individual>)
    ensures |r| == |pop| + |born| && Sorted(r)
    ensures multiset(r) == multiset(pop) + multiset(born)
  {
    SortDesc(pop + born)
  }

  // ---------------------------------------------------------------------
  // Genomes

  lemma CellBound(n: nat, i: nat, j: nat)
    requires i < n && j < n
    ensures i * n + j < n * n
  {
    assert i * n + j < i * n + n == (i + 1) * n <= n * n;
  }

  /** adj[i][j] of genome.reshape((n, n)): row-major. */
  function Cell(genome: seq<int>, n: nat, i: nat, j: nat): int
    requires |genome| == n * n && i < n && j < n
  {
    CellBound(n, i, j);
    genome[i * n + j]
  }

  /** networkx add_nodes_from: each node once, in order of first appearance. */
  function AddNodes(ns: seq<Var>, xs: seq<Var>): (r: seq<Var>)
    ensures Elems(r) == Elems(ns) + Elems(xs)
    ensures Distinct(ns) ==> Distinct(r)
    ensures Distinct(ns + xs) ==> r == ns + xs
    decreases |xs|
  {
    if xs == [] then
      assert ns + xs == ns;
      ns
    else
      assert Elems(xs) == {xs[0]} + Elems(xs[1..]);
      assert ns + xs == (ns + [xs[0]]) + xs[1..];
      assert Distinct(ns + xs) ==> xs[0] !in ns by {
        if Distinct(ns + xs) {
          forall k | 0 <= k < |ns| ensures ns[k] != xs[0] {
            assert (ns + xs)[k] == ns[k] && (ns + xs)[|ns|] == xs[0];
          }
        }
      }
      AddNodes(AddNode(ns, xs[0]), xs[1..])
  }

  /** The edges of the decoded graph: (nodes[i], nodes[j]) for every
      non-zero entry adj[i][j]. */
  function GenomeEdges(nodes: seq<Var>, genome: seq<int>): (E: set<Edge>)
    requires |genome| == |nodes| * |nodes|
    ensures Closed(nodes, E)
  {
    set i: nat, j: nat | i < |nodes| && j < |nodes| && Cell(genome, |nodes|, i, j) != 0 :: (nodes[i], nodes[j])
  }

  /** Genetic.genome_to_dag: reshape fails unless the genome has n * n
      entries; the nodes are added first, then the edges of the non-zero
      entries. */
  function GenomeToDag(nodes: seq<Var>, genome: seq<int>): (r: Result<Dag>)
    ensures r.Failure? <==> |genome| != |nodes| * |nodes|
    ensures r.Failure? ==> r.error == BadReshape
    ensures r.Success? ==> Elems(r.value.nodes) == Elems(nodes) && Closed(r.value.nodes, r.value.edges)
    ensures r.Success? && Distinct(nodes) ==> r.value.nodes == nodes
  {
    if |genome| != |nodes| * |nodes| then Failure(BadReshape)
    else
      var ns := AddNodes([], nodes);
      assert [] + nodes == nodes;
      var E := GenomeEdges(nodes, genome);
      assert Closed(ns, E) by {
        forall e | e in E ensures e.0 in ns && e.1 in ns {
          assert e.0 in Elems(nodes) && e.1 in Elems(nodes);
          assert e.0 in Elems(ns) && e.1 in Elems(ns);
        }
      }
      Success(Dag(ns, E))
  }

  /** The decoded graph has the edge (nodes[i], nodes[j]) exactly when the
      genome's entry for (i, j) is non-zero. */
  lemma GenomeEdgeIff(nodes: seq<Var>, genome: seq<int>, i: nat, j: nat)
    requires Distinct(nodes) && |genome| == |nodes| * |nodes| && i < |nodes| && j < |nodes|
    ensures GenomeToDag(nodes, genome).Success?
    ensures (nodes[i], nodes[j]) in GenomeToDag(nodes, genome).value.edges <==> Cell(genome, |nodes|, i, j) != 0
  {
    var E := GenomeToDag(nodes, genome).value.edges;
    if (nodes[i], nodes[j]) in E {
      var i': nat, j': nat :| i' < |nodes| && j' < |nodes| && Cell(genome, |nodes|, i', j') != 0
                              && (nodes[i'], nodes[j']) == (nodes[i], nodes[j]);
      assert i' == i && j' == j;
    }
  }

  /** Cancelling a positive factor keeps a strict inequality. */
  lemma MulLess(a: int, b: int, n: int)
    requires n > 0 && a * n < b * n
    ensures a < b
  {
    assert (b - a) * n > 0;
  }

  lemma DivModCell(n: nat, i: nat, j: nat)
    requires i < n && j < n
    ensures (i * n + j) / n == i && (i * n + j) % n == j
  {
    var x := i * n + j;
    var q, m := x / n, x % n;
    assert x == q * n + m && 0 <= m < n;
    assert q * n < (i + 1) * n;
    MulLess(q, i + 1, n);
    assert i * n < (q + 1) * n;
    MulLess(i, q + 1, n);
  }

  /** The row of the flat index k < n * n. */
  lemma RowBound(n: nat, k: nat)
    requires k < n * n
    ensures n > 0 && k / n < n && k == (k / n) * n + k % n && k % n < n
  {
    assert n != 0 by { assert n * n != 0; }
    assert (k / n) * n <= k < n * n;
    MulLess(k / n, n, n);
  }

  /** The genome of a graph over the nodes: entry i * n + j is 1 exactly
      when the edge (nodes[i], nodes[j]) is present. */
  function Encode(nodes: seq<Var>, E: set<Edge>): (genome: seq<int>)
    ensures |genome| == |nodes| * |nodes|
  {
    var n := |nodes|;
    seq(n * n, k requires 0 <= k < n * n =>
      RowBound(n, k);
      if (nodes[k / n], nodes[k % n]) in E then 1 else 0)
  }

  lemma EncodeCell(nodes: seq<Var>, E: set<Edge>, i: nat, j: nat)
    requires i < |nodes| && j < |nodes|
    ensures Cell(Encode(nodes, E), |nodes|, i, j) == if (nodes[i], nodes[j]) in E then 1 else 0
  {
    CellBound(|nodes|, i, j);
    DivModCell(|nodes|, i, j);
  }

  /** Decoding a graph's genome gives back the graph. */
  lemma DecodeEncode(nodes: seq<Var>, E: set<Edge>)
    requires Distinct(nodes) && Closed(nodes, E)
    ensures GenomeToDag(nodes, Encode(nodes, E)) == Success(Dag(nodes, E))
  {
    var D := GenomeToDag(nodes, Encode(nodes, E)).value;
    assert D.nodes == nodes;
    forall e | e in E ensures e in D.edges {
      EncodedEdgeKept(nodes, E, e);
    }
    forall e | e in D.edges ensures e in E {
      DecodedEdgeWasThere(nodes, E, e);
    }
    assert D.edges == E;
    assert D == Dag(nodes, E);
  }

  lemma EncodedEdgeKept(nodes: seq<Var>, E: set<Edge>, e: Edge)
    requires Distinct(nodes) && Closed(nodes, E) && e in E
    ensures e in GenomeToDag(nodes, Encode(nodes, E)).value.edges
  {
    var i, j := IndexOf(nodes, e.0), IndexOf(nodes, e.1);
    EncodeCell(nodes, E, i, j);
    GenomeEdgeIff(nodes, Encode(nodes, E), i, j);
  }

  lemma DecodedEdgeWasThere(nodes: seq<Var>, E: set<Edge>, e: Edge)
    requires Distinct(nodes) && e in GenomeToDag(nodes, Encode(nodes, E)).value.edges
    ensures e in E
  {
    var genome := Encode(nodes, E);
    assert e in GenomeEdges(nodes, genome);
    var i: nat, j: nat :| i < |nodes| && j < |nodes| && Cell(genome, |nodes|, i, j) != 0 && e == (nodes[i], nodes[j]);
    EncodeCell(nodes, E, i, j);
  }

  /** Encoding a decoded genome gives it back with every non-zero entry
      read as 1. */
  lemma EncodeDecode(nodes: seq<Var>, genome: seq<int>)
    requires Distinct(nodes) && |genome| == |nodes| * |nodes|
    ensures var g := Encode(nodes, GenomeToDag(nodes, genome).value.edges);
      forall k :: 0 <= k < |genome| ==> g[k] == if genome[k] != 0 then 1 else 0
  {
    forall k | 0 <= k < |genome|
      ensures Encode(nodes, GenomeToDag(nodes, genome).value.edges)[k] == if genome[k] != 0 then 1 else 0
    {
      EncodeDecodeAt(nodes, genome, k);
    }
  }

  /** One entry of EncodeDecode: entry k is cell (k / n, k % n). */
  lemma EncodeDecodeAt(nodes: seq<Var>, genome: seq<int>, k: nat)
    requires Distinct(nodes) && |genome| == |nodes| * |nodes| && k < |genome|
    ensures GenomeToDag(nodes, genome).Success?
    ensures var g := Encode(nodes, GenomeToDag(nodes, genome).value.edges);
      |g| == |genome| && g[k] == if genome[k] != 0 then 1 else 0
  {
    var n := |nodes|;
    var i, j := FlatIndex(n, k);
    var E := GenomeToDag(nodes, genome).value.edges;
    EncodeCell(nodes, E, i, j);
    GenomeEdgeIff(nodes, genome, i, j);
  }

  /** The row and column of the flat index k < n * n. */
  lemma FlatIndex(n: nat, k: nat) returns (i: nat, j: nat)
    requires k < n * n
    ensures i < n && j < n && i * n + j == k
  {
    RowBound(n, k);
    i, j := k / n, k % n;
  }

  // ---------------------------------------------------------------------
  // Generations

  /** The random choices of one generation: the indices select draws,
      each survivor's crossover partner (an index among the survivors), and
      the individuals add_pop generates. */
  datatype Draw = Draw(chosen: set<nat>, partners: seq<nat>, born: seq<Individual>)

  /** A draw that fits a population of size: size / 2 distinct indices of
      positive weight, a partner among them for each, and size - size / 2
      born individuals. */
  predicate FitsDraw(size: nat, d: Draw) {
    && (forall i :: i in d.chosen ==> i + 1 < size)
    && |d.chosen| == size / 2
    && |d.partners| == size / 2 && (forall k :: 0 <= k < |d.partners| ==> d.partners[k] < size / 2)
    && |d.born| == size - size / 2
  }

  /** One pass of the evolution loop on a graph of n nodes: select the
      better half, crossover (which fails on a child that is not n * n
      long and otherwise leaves the survivors as they are), then add_pop
      refills to the former size. Looking up the top row of an empty
      population fails first. */
  function Generation(pop: seq<Individual>, n: nat, d: Draw): (r: Result<seq<Individual>>)
    requires FitsDraw(|pop|, d)
    ensures |pop| == 0 ==> r == Failure(EmptyPopulation)
    ensures |pop| == 1 ==> r == Failure(ZeroDivision)
    ensures |pop| >= 2 && r.Failure? ==> exists i :: BadChild(Keep(pop, d.chosen), n, d.partners, i)
    ensures |pop| >= 2 && (exists i :: BadChild(Keep(pop, d.chosen), n, d.partners, i)) ==> r.Failure?
    ensures |pop| >= 2 && r.Failure? ==> r.error == BadReshape
    ensures r.Success? ==> |r.value| == |pop| && Sorted(r.value)
    ensures r.Success? ==> multiset(r.value) == multiset(Keep(pop, d.chosen)) + multiset(d.born)
    ensures r.Success? ==> forall x :: x in r.value ==> x in pop || x in d.born
  {
    if pop == [] then Failure(EmptyPopulation)
    else
      var kept :- Select(pop, d.chosen);
      var crossed :- Crossover(kept, n, d.partners);
      var r := AddPop(crossed, d.born);
      RefillFrom(pop, kept, d.born, r);
      Success(r)
  }

  /** The refilled population holds only survivors and newcomers. */
  lemma RefillFrom(pop: seq<Individual>, kept: seq<Individual>, born: seq<Individual>, r: seq<Individual>)
    requires forall x :: x in kept ==> x in pop
    requires multiset(r) == multiset(kept) + multiset(born)
    ensures forall x :: x in r ==> x in pop || x in born
  {
    forall x | x in r ensures x in pop || x in born {
      assert x in multiset(r);
      if x in multiset(kept) {
        assert x in kept;
      }
    }
  }

  /** A generation on well-shaped genomes fails only on a population of
      fewer than two. */
  lemma GenerationShaped(pop: seq<Individual>, n: nat, d: Draw)
    requires FitsDraw(|pop|, d) && |pop| >= 2 && WellShaped(pop, n)
    ensures Generation(pop, n, d).Success?
  {
    var kept := Keep(pop, d.chosen);
    forall x | x in kept ensures |x.genome| == n * n {
      var i :| i in d.chosen && i < |pop| && pop[i] == x;
    }
    assert Select(pop, d.chosen) == Success(kept);
    CrossoverShaped(kept, n, d.partners);
  }

  /** Every genome evolution handles has n * n entries: the initial ones
      and those generated in the first maxIter draws. */
  predicate InputsShaped(initial: seq<Individual>, maxIter: nat, draws: seq<Draw>, n: nat)
    requires maxIter <= |draws|
  {
    WellShaped(initial, n) && forall k :: 0 <= k < maxIter ==> WellShaped(draws[k].born, n)
  }

  /** Genetic.evolution: start sorts the initial genomes; max_iter
      generations follow; the top genome of the final population is
      decoded. */
  method Evolution(nodes: seq<Var>, initial: seq<Individual>, maxIter: nat,
                   draws: seq<Draw>)
    returns (r: Result<Dag>, final: seq<Individual>)
    requires maxIter <= |draws|
    requires forall k :: 0 <= k < |draws| ==> FitsDraw(|initial|, draws[k])
    ensures |initial| == 0 ==> r == Failure(EmptyPopulation)
    ensures |initial| == 1 && maxIter > 0 ==> r == Failure(ZeroDivision)
    ensures r.Failure? && (|initial| >= 2 || maxIter == 0) && |initial| > 0 ==> r.error == BadReshape
    ensures InputsShaped(initial, maxIter, draws, |nodes|) && (|initial| >= 2 || maxIter == 0) && |initial| > 0
      ==> r.Success?
    ensures r.Success? ==> |final| == |initial| && Sorted(final)
    ensures r.Success? ==> GenomeToDag(nodes, final[0].genome) == r
    ensures r.Success? ==> forall x :: x in final ==> final[0].score >= x.score
    ensures forall x :: x in final ==> x in initial || exists k :: 0 <= k < maxIter && x in draws[k].born
  {
    final := SortDesc(initial);
    assert forall x :: x in final ==> x in initial by {
      forall x | x in final ensures x in initial {
        assert x in multiset(final);
      }
    }
    if initial == [] {
      return Failure(EmptyPopulation), final;
    }
    var it := 0;
    while it < maxIter
      invariant it <= maxIter && |final| == |initial| && Sorted(final)
      invariant |initial| == 1 ==> it == 0
      invariant forall x :: x in final ==> x in initial || exists k :: 0 <= k < it && x in draws[k].born
      invariant InputsShaped(initial, maxIter, draws, |nodes|) ==> WellShaped(final, |nodes|)
    {
      var next := Generation(final, |nodes|, draws[it]);
      if |initial| >= 2 && InputsShaped(initial, maxIter, draws, |nodes|) {
        GenerationShaped(final, |nodes|, draws[it]);
      }
      if next.Failure? {
        return Failure(next.error), final;
      }
      final := next.value;
      it := it + 1;
    }
    SortDescSorted(final);
    assert final[0] in final;
    r := GenomeToDag(nodes, final[0].genome);
    if r.Success? {
      assert forall x :: x in final ==> final[0].score >= x.score by {
        forall x | x in final ensures final[0].score >= x.score {
          var i :| 0 <= i < |final| && final[i] == x;
          if i > 0 { assert final[0].score >= final[i].score; }
        }
      }
    }
  }
}
