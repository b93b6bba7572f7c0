/**
 Finite directed graphs given by their set of edges: paths, reachability, acyclicity,
 and the descendant count that turns acyclicity into a termination measure.

 The topology validator, the delivery engine, the graph editor and the module registry
 all rest on the lemmas of this module.
 */
module Digraph {

  /** A path is a nonempty sequence of nodes whose neighbours are joined by edges. */
  ghost predicate IsPath<N>(E: set<(N, N)>, p: seq<N>) {
    && |p| > 0
    && forall i :: 0 <= i < |p| - 1 ==> (p[i], p[i + 1]) in E
  }

  ghost predicate PathFromTo<N>(E: set<(N, N)>, p: seq<N>, a: N, b: N) {
    IsPath(E, p) && p[0] == a && p[|p| - 1] == b
  }

  /** b can be reached from a in zero or more steps. */
  ghost predicate Reach<N(!new)>(E: set<(N, N)>, a: N, b: N) {
    exists p :: PathFromTo(E, p, a, b)
  }

  /** No edge can be closed to a cycle. */
  ghost predicate Acyclic<N(!new)>(E: set<(N, N)>) {
    forall e :: e in E ==> !Reach(E, e.1, e.0)
  }

  lemma ReachSelf<N(!new)>(E: set<(N, N)>, a: N)
    ensures Reach(E, a, a)
  {
    assert PathFromTo(E, [a], a, a);
  }

  lemma ReachTrans<N(!new)>(E: set<(N, N)>, a: N, b: N, c: N)
    requires Reach(E, a, b) && Reach(E, b, c)
    ensures Reach(E, a, c)
  {
    var p :| PathFromTo(E, p, a, b);
    var q :| PathFromTo(E, q, b, c);
    var r := p + q[1..];
    assert forall i :: 0 <= i < |r| - 1 ==> (r[i], r[i + 1]) in E by {
      forall i | 0 <= i < |r| - 1
        ensures (r[i], r[i + 1]) in E
      {
        if i < |p| - 1 {
          assert (p[i], p[i + 1]) in E;
        } else {
          var j := i - (|p| - 1);
          assert r[i] == q[j] && r[i + 1] == q[j + 1];
        }
      }
    }
    assert PathFromTo(E, r, a, c);
  }

  lemma ReachEdge<N(!new)>(E: set<(N, N)>, a: N, b: N)
    requires (a, b) in E
    ensures Reach(E, a, b)
  {
    assert PathFromTo(E, [a, b], a, b);
  }

  /** A walk that is not trivial ends with an edge. */
  lemma ReachLastEdge<N(!new)>(E: set<(N, N)>, a: N, b: N)
    requires Reach(E, a, b) && a != b
    ensures exists x :: (x, b) in E && Reach(E, a, x)
  {
    var p :| PathFromTo(E, p, a, b);
    var x := p[|p| - 2];
    assert PathFromTo(E, p[..|p| - 1], a, x);
    assert (x, b) in E;
  }

  lemma ReachFirstEdge<N(!new)>(E: set<(N, N)>, a: N, b: N)
    requires Reach(E, a, b) && a != b
    ensures exists x :: (a, x) in E && Reach(E, x, b)
  {
    var p :| PathFromTo(E, p, a, b);
    var x := p[1];
    assert PathFromTo(E, p[1..], x, b);
    assert (a, x) in E;
  }

  lemma ReachMonotone<N(!new)>(E: set<(N, N)>, F: set<(N, N)>, a: N, b: N)
    requires E <= F && Reach(E, a, b)
    ensures Reach(F, a, b)
  {
    var p :| PathFromTo(E, p, a, b);
    assert PathFromTo(F, p, a, b);
  }

  /** A set that holds a and is closed under the edges holds everything a reaches. */
  lemma {:induction false} ReachStaysInClosed<N(!new)>(E: set<(N, N)>, S: set<N>, p: seq<N>)
    requires IsPath(E, p) && p[0] in S
    requires forall e :: e in E && e.0 in S ==> e.1 in S
    ensures p[|p| - 1] in S
  {
    if |p| > 1 {
      assert (p[0], p[1]) in E && (p[0], p[1]).0 in S;
      ReachStaysInClosed(E, S, p[1..]);
    }
  }

  /**
   A path to u can be cut at the first visit of u, and what is left never leaves u.
   So every edge out of u can be taken away without losing that u is reached.
   This is why one depth-first search for each edge, run without that edge, sees every cycle.
   */
  lemma {:induction false} PathAvoidingEdgesOut<N(!new)>(E: set<(N, N)>, F: set<(N, N)>, p: seq<N>, u: N)
    requires IsPath(E, p) && p[|p| - 1] == u
    requires forall e :: e in E && e.0 != u ==> e in F
    ensures Reach(F, p[0], u)
  {
    if p[0] == u {
      ReachSelf(F, u);
    } else {
      assert (p[0], p[1]) in E && (p[0], p[1]).0 != u;
      PathAvoidingEdgesOut(E, F, p[1..], u);
      ReachEdge(F, p[0], p[1]);
      ReachTrans(F, p[0], p[1], u);
    }
  }

  lemma ReachWithoutEdge<N(!new)>(E: set<(N, N)>, F: set<(N, N)>, e: (N, N))
    requires E - {e} <= F <= E
    ensures Reach(F, e.1, e.0) <==> Reach(E, e.1, e.0)
  {
    if Reach(F, e.1, e.0) {
      ReachMonotone(F, E, e.1, e.0);
    }
    if Reach(E, e.1, e.0) {
      var p :| PathFromTo(E, p, e.1, e.0);
      PathAvoidingEdgesOut(E, F, p, e.0);
    }
  }

  /** Adding an edge keeps a graph acyclic exactly when its source is not reachable from its target. */
  lemma AcyclicAddEdge<N(!new)>(E: set<(N, N)>, e: (N, N))
    requires Acyclic(E)
    ensures Acyclic(E + {e}) <==> !Reach(E, e.1, e.0)
  {
    var F := E + {e};
    ReachWithoutEdge(F, E, e);
    if !Reach(E, e.1, e.0) {
      forall f | f in F
        ensures !Reach(F, f.1, f.0)
      {
        if f != e && Reach(F, f.1, f.0) {
          var p :| PathFromTo(F, p, f.1, f.0);
          PathThroughNewEdge(E, e, p);
          if Reach(E, e.1, f.0) && Reach(E, f.1, e.0) {
            ReachEdge(E, f.0, f.1);
            ReachTrans(E, e.1, f.0, f.1);
            ReachTrans(E, e.1, f.1, e.0);
          }
          assert false;
        }
      }
    }
  }

  /** A path in a graph with one more edge lies in the old graph, or reaches and leaves that edge in it. */
  lemma {:induction false} PathThroughNewEdge<N(!new)>(E: set<(N, N)>, e: (N, N), p: seq<N>)
    requires IsPath(E + {e}, p)
    ensures Reach(E, p[0], p[|p| - 1]) || (Reach(E, p[0], e.0) && Reach(E, e.1, p[|p| - 1]))
  {
    var last := p[|p| - 1];
    if |p| == 1 {
      ReachSelf(E, last);
    } else {
      PathThroughNewEdge(E, e, p[1..]);
      assert (p[0], p[1]) in E + {e};
      if (p[0], p[1]) in E {
        ReachEdge(E, p[0], p[1]);
        if Reach(E, p[1], last) {
          ReachTrans(E, p[0], p[1], last);
        } else {
          ReachTrans(E, p[0], p[1], e.0);
        }
      } else {
        ReachSelf(E, p[0]);
      }
    }
  }

  lemma AcyclicSubgraph<N(!new)>(E: set<(N, N)>, F: set<(N, N)>)
    requires F <= E && Acyclic(E)
    ensures Acyclic(F)
  {
    forall e | e in F
      ensures !Reach(F, e.1, e.0)
    {
      if Reach(F, e.1, e.0) {
        ReachMonotone(F, E, e.1, e.0);
      }
    }
  }

  /** The nodes of V that v reaches in one step or more. */
  ghost function Descendants<N(!new)>(E: set<(N, N)>, V: set<N>, v: N): set<N> {
    set w | w in V && exists x :: (v, x) in E && Reach(E, x, w)
  }

  /** How many nodes lie strictly below v: the measure that every step along an edge lowers. */
  ghost function Rank<N(!new)>(E: set<(N, N)>, V: set<N>, v: N): nat {
    |Descendants(E, V, v)|
  }

  lemma SubsetCardinality<T>(A: set<T>, B: set<T>)
    requires A <= B
    ensures |A| <= |B|
    ensures A != B ==> |A| < |B|
  {
    assert B == A + (B - A);
    assert |B| == |A| + |B - A|;
    if A != B {
      var x :| x in B - A;
      assert B - A != {};
    }
  }

  lemma RankDecreases<N(!new)>(E: set<(N, N)>, V: set<N>, u: N, v: N)
    requires Acyclic(E) && (u, v) in E && v in V
    ensures Rank(E, V, v) < Rank(E, V, u)
  {
    var du, dv := Descendants(E, V, u), Descendants(E, V, v);
    ReachSelf(E, v);
    assert v in du;
    forall w | w in dv
      ensures w in du
    {
      var x :| (v, x) in E && Reach(E, x, w);
      ReachEdge(E, v, x);
      ReachTrans(E, v, x, w);
    }
    NotOwnDescendant(E, V, v);
    SubsetCardinality(dv, du);
  }

  lemma NotOwnDescendant<N(!new)>(E: set<(N, N)>, V: set<N>, v: N)
    requires Acyclic(E)
    ensures v !in Descendants(E, V, v)
  {
    forall x | (v, x) in E
      ensures !Reach(E, x, v)
    {
      var e := (v, x);
      assert !Reach(E, e.1, e.0);
    }
  }

  lemma RankBound<N(!new)>(E: set<(N, N)>, V: set<N>, v: N)
    requires Acyclic(E) && v in V
    ensures Rank(E, V, v) < |V|
  {
    NotOwnDescendant(E, V, v);
    SubsetCardinality(Descendants(E, V, v), V);
  }

  /** In a graph where each node has one predecessor, two nodes above a common one lie on one line. */
  lemma {:induction false} ReachComparable<N(!new)>(E: set<(N, N)>, p: seq<N>, q: seq<N>)
    requires forall e, f :: e in E && f in E && e.1 == f.1 ==> e == f
    requires IsPath(E, p) && IsPath(E, q) && p[|p| - 1] == q[|q| - 1]
    ensures Reach(E, p[0], q[0]) || Reach(E, q[0], p[0])
    decreases |p|
  {
    if |p| == 1 {
      assert PathFromTo(E, q, q[0], p[0]);
    } else if |q| == 1 {
      assert PathFromTo(E, p, p[0], q[0]);
    } else {
      var e, f := (p[|p| - 2], p[|p| - 1]), (q[|q| - 2], q[|q| - 1]);
      assert e in E && f in E && e.1 == f.1;
      ReachComparable(E, p[..|p| - 1], q[..|q| - 1]);
    }
  }

  /** Walking on inside such a set from v lowers the rank at each step, for ever, unless there is a cycle. */
  lemma {:induction false} EndlessDescentFrom<N(!new)>(E: set<(N, N)>, V: set<N>, R: set<N>, v: N)
    requires R <= V && v in R
    requires forall u :: u in R ==> exists w :: w in R && (u, w) in E
    ensures !Acyclic(E)
    decreases Rank(E, V, v)
  {
    if Acyclic(E) {
      var w :| w in R && (v, w) in E;
      RankDecreases(E, V, v, w);
      EndlessDescentFrom(E, V, R, w);
    }
  }

  /** A nonempty set in which every member has an edge into the set closes a cycle. */
  lemma NoEndlessDescent<N(!new)>(E: set<(N, N)>, V: set<N>, R: set<N>)
    requires R <= V && R != {}
    requires forall v :: v in R ==> exists w :: w in R && (v, w) in E
    ensures !Acyclic(E)
  {
    var v :| v in R;
    EndlessDescentFrom(E, V, R, v);
  }
}
