/** The subset lattice that generate_order_graph builds: for every
    permutation of the variables, the chain of its prefixes, each prefix
    joined to the next by an edge. Over distinct variables this is exactly
    the set of all subsets with an edge U -> U + {x} for every x outside U,
    and it has 2^n states. */
module Lattice {
  import opened Base

  /** An order-graph state: the variables placed so far. */
  type State = set<Var>

  /** An order-graph edge (from-state, to-state). */
  type Step = (State, State)

  /** itertools.permutations(s): every ordering of the positions of s. */
  function Perms(s: seq<Var>): set<seq<Var>>
    decreases |s|
  {
    if s == [] then {[]}
    else set i, p | 0 <= i < |s| && p in Perms(RemoveAt(s, i)) :: [s[i]] + p
  }

  /** The prefix states frozenset(order[:k]) of one permutation. */
  function ChainNodes(q: seq<Var>): set<State> {
    set k | 0 <= k <= |q| :: Elems(q[..k])
  }

  /** The edges between consecutive prefix states of one permutation. */
  function ChainEdges(q: seq<Var>): set<Step> {
    set k | 0 <= k < |q| :: ChainEdge(q, k)
  }

  /** The k-th edge of the chain of q. */
  function ChainEdge(q: seq<Var>, k: nat): Step
    requires k < |q|
  {
    (Elems(q[..k]), Elems(q[..k + 1]))
  }

  /** The states generate_order_graph adds. */
  function LatticeNodes(vs: seq<Var>): set<State> {
    set U, q | q in Perms(vs) && U in ChainNodes(q) :: U
  }

  /** The edges generate_order_graph adds. */
  function LatticeEdges(vs: seq<Var>): set<Step> {
    set e, q | q in Perms(vs) && e in ChainEdges(q) :: e
  }

  /** W adds exactly one variable of vs, not yet in U, to U. */
  ghost predicate IsExtension(vs: seq<Var>, U: State, W: State) {
    exists x :: x in vs && x !in U && W == U + {x}
  }

  // ---------------------------------------------------------------------
  // Permutations

  /** Putting s[i] in front of a permutation of the rest gives a
      permutation of s. */
  lemma PermsCons(s: seq<Var>, i: nat, p: seq<Var>)
    requires i < |s| && p in Perms(RemoveAt(s, i))
    ensures [s[i]] + p in Perms(s)
  {
  }

  lemma ConsFacts(a: Var, p: seq<Var>)
    ensures Elems([a] + p) == {a} + Elems(p)
    ensures a !in Elems(p) && Distinct(p) ==> Distinct([a] + p)
  {
    var q := [a] + p;
    if a !in Elems(p) && Distinct(p) {
      forall i, j | 0 <= i < j < |q| ensures q[i] != q[j] {
        assert q[j] == p[j - 1];
        if i > 0 { assert q[i] == p[i - 1]; }
      }
    }
  }

  lemma {:induction false} PermFacts(s: seq<Var>, q: seq<Var>)
    requires q in Perms(s)
    ensures |q| == |s| && Elems(q) == Elems(s)
    ensures Distinct(s) ==> Distinct(q)
    decreases |s|
  {
    if s != [] {
      var i, p :| 0 <= i < |s| && p in Perms(RemoveAt(s, i)) && q == [s[i]] + p;
      PermFacts(RemoveAt(s, i), p);
      RemoveAtSplit(s, i);
      ConsFacts(s[i], p);
      if Distinct(s) {
        RemoveAtElems(s, i);
      }
    }
  }

  lemma RemoveAtSplit(s: seq<Var>, i: nat)
    requires i < |s|
    ensures Elems(s) == Elems(RemoveAt(s, i)) + {s[i]}
  {
    var r := RemoveAt(s, i);
    forall x | x in Elems(s) ensures x in Elems(r) + {s[i]} {
      var k :| 0 <= k < |s| && s[k] == x;
      if k < i { assert r[k] == x; } else if k > i { assert r[k - 1] == x; }
    }
  }

  lemma {:induction false} SelfIsPerm(s: seq<Var>)
    ensures s in Perms(s)
    decreases |s|
  {
    if s != [] {
      var t := s[1..];
      assert RemoveAt(s, 0) == t;
      SelfIsPerm(t);
      PermsCons(s, 0, t);
      assert [s[0]] + t == s;
    }
  }

  /** Every placement of the variables of U first, then x, is the start of
      some permutation. */
  lemma {:induction false} PermWithPrefix(s: seq<Var>, U: State, x: Var) returns (q: seq<Var>, k: nat)
    requires Distinct(s) && U <= Elems(s) && x in s && x !in U
    ensures q in Perms(s) && k < |q| && Elems(q[..k]) == U && q[k] == x
    decreases |s|
  {
    if U == {} {
      q := PermStartingWith(s, x);
      k := 0;
    } else {
      var u :| u in U;
      assert u in Elems(s);
      var i := IndexOf(s, u);
      var s' := RemoveAt(s, i);
      RemoveAtElems(s, i);
      assert U - {u} <= Elems(s') && x in Elems(s');
      var p, k' := PermWithPrefix(s', U - {u}, x);
      assert U == {u} + (U - {u});
      PermsCons(s, i, p);
      ConsPrefix(u, p, k');
      q, k := [u] + p, k' + 1;
    }
  }

  /** Some permutation of s starts with x. */
  lemma PermStartingWith(s: seq<Var>, x: Var) returns (q: seq<Var>)
    requires x in s
    ensures q in Perms(s) && |q| > 0 && q[0] == x
  {
    var i := IndexOf(s, x);
    var p := RemoveAt(s, i);
    SelfIsPerm(p);
    PermsCons(s, i, p);
    q := [s[i]] + p;
  }

  lemma ConsPrefix(u: Var, p: seq<Var>, k: nat)
    requires k < |p|
    ensures ([u] + p)[k + 1] == p[k]
    ensures Elems(([u] + p)[..k + 1]) == {u} + Elems(p[..k])
  {
    assert ([u] + p)[..k + 1] == [u] + p[..k];
    ConsFacts(u, p[..k]);
  }

  // ---------------------------------------------------------------------
  // Characterisation

  lemma PrefixGrows(q: seq<Var>, k: nat)
    requires k < |q|
    ensures Elems(q[..k + 1]) == Elems(q[..k]) + {q[k]}
  {
    assert q[..k + 1] == q[..k] + [q[k]];
  }

  lemma PrefixFresh(q: seq<Var>, k: nat)
    requires k < |q| && Distinct(q)
    ensures q[k] !in Elems(q[..k])
  {
  }

  /** The generated states are exactly the subsets of the variables. */
  lemma NodesAreSubsets(vs: seq<Var>, U: State)
    requires Distinct(vs)
    ensures U in LatticeNodes(vs) <==> U <= Elems(vs)
  {
    if U in LatticeNodes(vs) {
      var q :| q in Perms(vs) && U in ChainNodes(q);
      PermFacts(vs, q);
      var k :| 0 <= k <= |q| && U == Elems(q[..k]);
      assert forall y :: y in q[..k] ==> y in q;
    }
    if U <= Elems(vs) {
      if U == Elems(vs) {
        SelfIsPerm(vs);
        assert vs[..|vs|] == vs;
        assert U in ChainNodes(vs);
      } else {
        var x :| x in Elems(vs) && x !in U;
        var q, k := PermWithPrefix(vs, U, x);
        assert U in ChainNodes(q);
      }
    }
  }

  /** The generated edges are exactly the one-variable extensions. */
  lemma EdgesAreExtensions(vs: seq<Var>, U: State, W: State)
    requires Distinct(vs)
    ensures (U, W) in LatticeEdges(vs) <==> U <= Elems(vs) && IsExtension(vs, U, W)
  {
    if (U, W) in LatticeEdges(vs) {
      var q :| q in Perms(vs) && (U, W) in ChainEdges(q);
      PermFacts(vs, q);
      var k :| 0 <= k < |q| && (U, W) == ChainEdge(q, k);
      PrefixGrows(q, k);
      PrefixFresh(q, k);
      assert q[k] in Elems(vs);
      assert forall y :: y in q[..k] ==> y in q;
    }
    if U <= Elems(vs) && IsExtension(vs, U, W) {
      var x :| x in vs && x !in U && W == U + {x};
      var q, k := PermWithPrefix(vs, U, x);
      PrefixGrows(q, k);
      assert (U, W) == ChainEdge(q, k);
      assert (U, W) in ChainEdges(q);
    }
  }

  /** Rerunning the generation adds nothing new. */
  lemma EdgesWithinNodes(vs: seq<Var>, U: State, W: State)
    requires Distinct(vs) && (U, W) in LatticeEdges(vs)
    ensures U in LatticeNodes(vs) && W in LatticeNodes(vs)
  {
    EdgesAreExtensions(vs, U, W);
    NodesAreSubsets(vs, U);
    NodesAreSubsets(vs, W);
  }

  // ---------------------------------------------------------------------
  // Counting: 2^n states

  function Pow2(n: nat): nat {
    if n == 0 then 1 else 2 * Pow2(n - 1)
  }

  /** All subsets of the variables of vs, built one variable at a time. */
  function PowerSet(vs: seq<Var>): set<State> {
    if vs == [] then {{}}
    else PowerSet(vs[1..]) + set U | U in PowerSet(vs[1..]) :: U + {vs[0]}
  }

  lemma {:induction false} PowerSetIsSubsets(vs: seq<Var>, U: State)
    ensures U in PowerSet(vs) <==> U <= Elems(vs)
  {
    if vs != [] {
      assert Elems(vs) == {vs[0]} + Elems(vs[1..]);
      var P := PowerSet(vs[1..]);
      PowerSetIsSubsets(vs[1..], U);
      PowerSetIsSubsets(vs[1..], U - {vs[0]});
      if U in PowerSet(vs) && U !in P {
        var V :| V in P && U == V + {vs[0]};
        PowerSetIsSubsets(vs[1..], V);
      }
      if U <= Elems(vs) {
        if vs[0] in U {
          var V := U - {vs[0]};
          assert V <= Elems(vs[1..]);
          assert V in P;
          assert U == V + {vs[0]};
        } else {
          assert U <= Elems(vs[1..]);
        }
      }
    } else if U <= Elems(vs) {
      assert U == {};
    }
  }

  /** Adding a fresh element is injective, so it keeps the count. */
  lemma {:induction false} AddFreshCard(A: set<State>, x: Var)
    requires forall U :: U in A ==> x !in U
    ensures |set U | U in A :: U + {x}| == |A|
    decreases |A|
  {
    var B := set U | U in A :: U + {x};
    if A != {} {
      var a :| a in A;
      var A' := A - {a};
      var B' := set U | U in A' :: U + {x};
      AddFreshCard(A', x);
      assert B == B' + {a + {x}};
      assert a + {x} !in B' by {
        forall U | U in A' ensures U + {x} != a + {x} {
          assert U == (U + {x}) - {x} && a == (a + {x}) - {x};
        }
      }
    } else {
      assert B == {};
    }
  }

  lemma {:induction false} PowerSetCard(vs: seq<Var>)
    requires Distinct(vs)
    ensures |PowerSet(vs)| == Pow2(|vs|)
  {
    if vs != [] {
      var P := PowerSet(vs[1..]);
      PowerSetCard(vs[1..]);
      forall U | U in P ensures vs[0] !in U {
        PowerSetIsSubsets(vs[1..], U);
      }
      AddFreshCard(P, vs[0]);
      var Q := set U | U in P :: U + {vs[0]};
      assert P !! Q;
    }
  }

  /** generate_order_graph yields 2^n states over n distinct variables
      (every subset, the empty one included). */
  lemma NodeCount(vs: seq<Var>)
    requires Distinct(vs)
    ensures |LatticeNodes(vs)| == Pow2(|vs|)
  {
    forall U ensures U in LatticeNodes(vs) <==> U in PowerSet(vs) {
      NodesAreSubsets(vs, U);
      PowerSetIsSubsets(vs, U);
    }
    assert LatticeNodes(vs) == PowerSet(vs);
    PowerSetCard(vs);
  }
}
