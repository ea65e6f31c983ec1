/** Minimum-cost paths through the subset lattice. A path from the empty
    state to the state S adds the variables of S one at a time, so it is an
    ordering of S; its cost is the sum, over the steps, of the cost of
    adding the next variable to the variables already placed. The best
    ordering is found by the dynamic program over subsets that a shortest
    path search on the order graph computes. */
module ShortestOrder {
  import opened Base
  import opened Lattice

  /** The cost of one lattice step: adding a variable to a state. */
  type StepCost = (State, Var) -> real

  /** q places each variable of S exactly once. */
  ghost predicate IsOrdering(q: seq<Var>, S: State) {
    Distinct(q) && Elems(q) == S
  }

  /** The cost of the lattice path that places the variables of q in turn. */
  function PathCost(q: seq<Var>, c: StepCost): real {
    if q == [] then 0.0
    else PathCost(q[..|q| - 1], c) + c(Elems(q[..|q| - 1]), q[|q| - 1])
  }

  /** The lattice states visited when placing the variables of q in turn:
      frozenset(q[:k]) for k = 0 .. |q|. */
  function StatesOf(q: seq<Var>): (p: seq<State>)
    ensures |p| == |q| + 1
    ensures forall k :: 0 <= k <= |q| ==> p[k] == Elems(q[..k])
  {
    seq(|q| + 1, k requires 0 <= k <= |q| => Elems(q[..k]))
  }

  lemma SnocFacts(q: seq<Var>, x: Var)
    ensures (q + [x])[..|q|] == q
    ensures Elems(q + [x]) == Elems(q) + {x}
    ensures Distinct(q) && x !in Elems(q) ==> Distinct(q + [x])
  {
    assert (q + [x])[..|q|] == q;
  }

  lemma StatesOfSnoc(q: seq<Var>, x: Var)
    ensures StatesOf(q + [x]) == StatesOf(q) + [Elems(q + [x])]
  {
    var a, b := StatesOf(q + [x]), StatesOf(q) + [Elems(q + [x])];
    forall k | 0 <= k < |a| ensures a[k] == b[k] {
      if k <= |q| {
        assert (q + [x])[..k] == q[..k];
      } else {
        assert (q + [x])[..k] == q + [x];
      }
    }
  }

  lemma DropLast(q: seq<Var>, S: State)
    requires IsOrdering(q, S) && q != []
    ensures IsOrdering(q[..|q| - 1], S - {q[|q| - 1]})
  {
    var q' := q[..|q| - 1];
    assert q == q' + [q[|q| - 1]];
    SnocFacts(q', q[|q| - 1]);
  }

  lemma EmptyOrdering(q: seq<Var>)
    requires IsOrdering(q, {})
    ensures q == []
  {
    DistinctCard(q);
  }

  /** The cheapest ordering of S, with its cost. */
  function BestOrder(vs: seq<Var>, S: State, c: StepCost): (r: (real, seq<Var>))
    requires S <= Elems(vs)
    ensures IsOrdering(r.1, S) && r.0 == PathCost(r.1, c)
    ensures forall q :: IsOrdering(q, S) ==> r.0 <= PathCost(q, c)
    decreases |S|, 2, 0
  {
    if S == {} then
      assert forall q :: IsOrdering(q, S) ==> PathCost(q, c) == 0.0 by {
        forall q | IsOrdering(q, S) ensures PathCost(q, c) == 0.0 {
          EmptyOrdering(q);
        }
      }
      (0.0, [])
    else
      var x :| x in S;
      assert x in vs;
      var r := BestLast(vs, S, c, 0);
      assert r.Some?;
      assert forall q :: IsOrdering(q, S) ==> r.value.0 <= PathCost(q, c) by {
        forall q | IsOrdering(q, S) ensures r.value.0 <= PathCost(q, c) {
          assert q != [] by { assert x in Elems(q); }
          assert q[|q| - 1] in Elems(q);
          assert vs[0..] == vs;
        }
      }
      r.value
  }

  /** The cheapest ordering of S whose last variable is x. */
  function BestEndingWith(vs: seq<Var>, S: State, c: StepCost, x: Var): (r: (real, seq<Var>))
    requires S <= Elems(vs) && x in S
    ensures IsOrdering(r.1, S) && r.0 == PathCost(r.1, c)
    ensures |r.1| > 0 && r.1[|r.1| - 1] == x
    ensures forall q :: IsOrdering(q, S) && |q| > 0 && q[|q| - 1] == x ==> r.0 <= PathCost(q, c)
    decreases |S|, 0, 1
  {
    var sub := BestOrder(vs, S - {x}, c);
    var q := sub.1 + [x];
    SnocFacts(sub.1, x);
    assert S == (S - {x}) + {x};
    assert PathCost(q, c) == sub.0 + c(S - {x}, x);
    assert forall q' :: IsOrdering(q', S) && |q'| > 0 && q'[|q'| - 1] == x ==> sub.0 + c(S - {x}, x) <= PathCost(q', c) by {
      forall q' | IsOrdering(q', S) && |q'| > 0 && q'[|q'| - 1] == x
        ensures sub.0 + c(S - {x}, x) <= PathCost(q', c) {
        EndingWithBound(vs, S, c, x, q');
      }
    }
    (sub.0 + c(S - {x}, x), q)
  }

  lemma EndingWithBound(vs: seq<Var>, S: State, c: StepCost, x: Var, q: seq<Var>)
    requires S <= Elems(vs) && x in S
    requires IsOrdering(q, S) && |q| > 0 && q[|q| - 1] == x
    ensures BestOrder(vs, S - {x}, c).0 + c(S - {x}, x) <= PathCost(q, c)
    decreases |S|, 0, 0
  {
    DropLast(q, S);
  }

  /** The cheapest ordering of S whose last variable is one of vs[i..], if
      any of them lies in S. */
  function BestLast(vs: seq<Var>, S: State, c: StepCost, i: nat): (r: Option<(real, seq<Var>)>)
    requires S <= Elems(vs) && i <= |vs|
    ensures r.None? <==> forall j :: i <= j < |vs| ==> vs[j] !in S
    ensures r.Some? ==> IsOrdering(r.value.1, S) && r.value.0 == PathCost(r.value.1, c)
    ensures r.Some? ==> forall q :: IsOrdering(q, S) && |q| > 0 && q[|q| - 1] in vs[i..] ==> r.value.0 <= PathCost(q, c)
    decreases |S|, 1, |vs| - i
  {
    if i == |vs| then None
    else
      var rest := BestLast(vs, S, c, i + 1);
      assert vs[i..] == [vs[i]] + vs[i + 1..];
      if vs[i] !in S then
        assert forall q :: IsOrdering(q, S) && |q| > 0 && q[|q| - 1] in vs[i..] ==> q[|q| - 1] in vs[i + 1..] by {
          forall q | IsOrdering(q, S) && |q| > 0 && q[|q| - 1] in vs[i..] ensures q[|q| - 1] in vs[i + 1..] {
            assert q[|q| - 1] in Elems(q);
          }
        }
        rest
      else
        var cand := BestEndingWith(vs, S, c, vs[i]);
        if rest.None? || cand.0 <= rest.value.0 then Some(cand)
        else rest
  }

  /** The lattice path of an ordering of S starts at the empty state, ends
      at S and takes one-variable steps. */
  lemma StatesOfSteps(vs: seq<Var>, q: seq<Var>, k: nat)
    requires Distinct(vs) && Distinct(q) && Elems(q) <= Elems(vs) && k < |q|
    ensures (StatesOf(q)[k], StatesOf(q)[k + 1]) in LatticeEdges(vs)
  {
    PrefixGrows(q, k);
    PrefixFresh(q, k);
    assert Elems(q[..k]) <= Elems(q);
    assert q[k] in Elems(vs);
    assert IsExtension(vs, Elems(q[..k]), Elems(q[..k + 1]));
    EdgesAreExtensions(vs, Elems(q[..k]), Elems(q[..k + 1]));
  }
}
