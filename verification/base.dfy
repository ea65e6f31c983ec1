/** Shared vocabulary of the structure-search engine: variables, edges,
    the failure-compatible result type and the errors the engine raises. */
module Base {

  /** A variable is a column name of the dataset. */
  type Var = string

  /** A directed edge (source, target). */
  type Edge = (Var, Var)

  /** The errors the engine raises: Python's ValueError, ZeroDivisionError,
      KeyError and IndexError, and networkx's NodeNotFound. */
  datatype Error =
    | InvalidStructure(cycle: seq<Edge>)  // a DAG was given a directed cycle
    | IncomparableStructure               // SHD between instances of unrelated classes
    | NotGenerated                        // order-graph costs requested before its edges exist
    | EmptyParentGraph                    // optimal parents requested from an edgeless parent graph
    | NodeNotFound                        // a path asked about a node the graph does not have
    | NotReady                            // optimal result requested before a shortest path exists
    | MissingCost                         // a shortest-path edge carries no cost attribute
    | NoOperation                         // max/min over an empty set of candidate operations
    | NoRestart                           // max/min over an empty list of restart results
    | ZeroDivision                        // rank weights of a one-genome population
    | BadReshape                          // a genome whose length is not n*n
    | NoNewVariable                       // an order-graph step whose target adds no variable
    | EmptyPopulation                     // the top genome of an empty population is looked up
    | NotDistribution                     // np.random.choice given weights that do not sum to 1

  datatype Option<+T> = None | Some(value: T)

  datatype Result<+T> = Success(value: T) | Failure(error: Error) {
    predicate IsFailure() { Failure? }

    function PropagateFailure<U>(): Result<U>
      requires Failure?
    {
      Failure(error)
    }

    function Extract(): T
      requires Success?
    {
      value
    }
  }

  /** No element occurs twice. */
  predicate Distinct<T(==)>(s: seq<T>) {
    forall i, j :: 0 <= i < j < |s| ==> s[i] != s[j]
  }

  /** The elements of a sequence, as a set. */
  function Elems<T>(s: seq<T>): set<T> {
    set x | x in s
  }

  /** Removes the element at position i. */
  function RemoveAt<T>(s: seq<T>, i: nat): (r: seq<T>)
    requires i < |s|
    ensures |r| == |s| - 1
    ensures forall k :: 0 <= k < i ==> r[k] == s[k]
    ensures forall k :: i <= k < |r| ==> r[k] == s[k + 1]
  {
    s[..i] + s[i + 1..]
  }

  lemma RemoveAtElems<T>(s: seq<T>, i: nat)
    requires i < |s|
    requires Distinct(s)
    ensures Distinct(RemoveAt(s, i))
    ensures Elems(RemoveAt(s, i)) == Elems(s) - {s[i]}
  {
    var r := RemoveAt(s, i);
    forall x | x in Elems(s) - {s[i]} ensures x in Elems(r) {
      var k :| 0 <= k < |s| && s[k] == x;
      if k < i { assert r[k] == x; } else { assert r[k - 1] == x; }
    }
  }

  /** Position of the first occurrence of x in s. */
  function IndexOf<T(==)>(s: seq<T>, x: T): (k: nat)
    requires x in s
    ensures k < |s| && s[k] == x
    ensures forall j :: 0 <= j < k ==> s[j] != x
  {
    if s[0] == x then 0 else 1 + IndexOf(s[1..], x)
  }

  /** The elements of a finite set in some order (list(frozenset)). */
  ghost function SetToSeq<T>(S: set<T>): (r: seq<T>)
    ensures Elems(r) == S && Distinct(r)
    decreases |S|
  {
    if S == {} then []
    else
      var x :| x in S;
      var rest := SetToSeq(S - {x});
      assert Elems([x] + rest) == {x} + Elems(rest);
      [x] + rest
  }

  /** A key of m with the least value (min(..., key=...)). */
  ghost function ArgMin<K>(m: map<K, real>): (k: K)
    requires |m| > 0
    ensures k in m && forall j :: j in m ==> m[k] <= m[j]
    decreases |m|
  {
    var k :| k in m;
    var rest := m - {k};
    assert rest.Keys == m.Keys - {k};
    if rest.Keys == {} then
      assert m.Keys <= {k};
      k
    else
      var j := ArgMin(rest);
      assert forall i :: i in m && i != k ==> i in rest && rest[i] == m[i];
      if m[k] <= m[j] then k else j
  }

  lemma SplitLast<T>(s: seq<T>)
    requires |s| > 0
    ensures s == s[..|s| - 1] + [s[|s| - 1]]
  {
  }

  lemma DistinctCard<T>(s: seq<T>)
    requires Distinct(s)
    ensures |Elems(s)| == |s|
  {
    if s != [] {
      DistinctCard(s[1..]);
      assert Elems(s) == {s[0]} + Elems(s[1..]);
    }
  }
}
