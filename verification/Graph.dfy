/** A stored directed multigraph as the graph extension scans it: one list of neighbours per node
    and direction. The backward scan is the transpose of the forward scan, slot by slot. */
module Graphs {
  import opened Basics
  import opened Reachability

  /** The node offsets 0..n-1. */
  ghost function NodeSet(n: nat): (s: set<nat>)
    ensures forall x: nat :: x in s <==> x < n
    ensures |s| == n
  {
    if n == 0 then {} else NodeSet(n - 1) + {n - 1}
  }

  ghost function Elems(s: seq<nat>): set<nat> {
    set v | v in s
  }

  /** Distinct offsets below n fit into n slots. */
  lemma DistinctFit(s: seq<nat>, n: nat)
    requires NoRepeats(s) && (forall i :: 0 <= i < |s| ==> s[i] < n)
    ensures |s| == |Elems(s)| <= n
  {
    DistinctSize(s);
    SubsetSize(Elems(s), NodeSet(n));
  }

  lemma {:induction false} DistinctSize(s: seq<nat>)
    requires NoRepeats(s)
    ensures |Elems(s)| == |s|
  {
    if s == [] {
    } else {
      var t, x := s[..|s| - 1], s[|s| - 1];
      DistinctSize(t);
      assert s == t + [x] && x !in t;
      assert Elems(s) == Elems(t) + {x};
    }
  }

  lemma {:induction false} SubsetSize<T>(a: set<T>, b: set<T>)
    requires a <= b
    ensures |a| <= |b|
    ensures |a| == |b| ==> a == b
  {
    if a != {} {
      var x :| x in a;
      SubsetSize(a - {x}, b - {x});
    }
  }

  datatype Graph = Graph(n: nat, fwd: seq<seq<nat>>, bwd: seq<seq<nat>>) {

    ghost predicate Valid() {
      && |fwd| == n && |bwd| == n
      && (forall u, i :: 0 <= u < n && 0 <= i < |fwd[u]| ==> fwd[u][i] < n)
      && (forall u, i :: 0 <= u < n && 0 <= i < |bwd[u]| ==> bwd[u][i] < n)
      && (forall u, v :: 0 <= u < n && 0 <= v < n ==> multiset(fwd[u])[v] == multiset(bwd[v])[u])
    }

    ghost function E(): Edges
      requires Valid()
    {
      set u, i | 0 <= u < n && 0 <= i < |fwd[u]| :: (u, fwd[u][i])
    }

    lemma Sizes()
      requires Valid()
      ensures |fwd| == n && |bwd| == n
    {
    }

    lemma NbrsInRange(u: nat)
      requires Valid() && u < n
      ensures |fwd| == n && |bwd| == n
      ensures forall i :: 0 <= i < |fwd[u]| ==> fwd[u][i] < n
      ensures forall i :: 0 <= i < |bwd[u]| ==> bwd[u][i] < n
    {
    }

    lemma EdgeIsForward(u: nat, v: nat)
      requires Valid()
      ensures (u, v) in E() <==> u < n && v < n && v in fwd[u]
    {
    }

    lemma EdgeIsBackward(u: nat, v: nat)
      requires Valid()
      ensures (u, v) in E() <==> u < n && v < n && u in bwd[v]
    {
      if u < n && v < n {
        assert v in fwd[u] <==> multiset(fwd[u])[v] > 0;
        assert u in bwd[v] <==> multiset(bwd[v])[u] > 0;
        EdgeIsForward(u, v);
      }
    }

    lemma ReachInRange(u: nat, v: nat)
      requires Valid() && Reach(E(), u, v) && u < n
      ensures v < n
    {
      ReachStaysInside(E(), u, v, NodeSet(n));
    }
  }

  /** Forward and backward slots together: the BOTH direction of an edge compute. */
  function BothWays(g: Graph): (scan: seq<seq<nat>>)
    requires |g.fwd| == g.n && |g.bwd| == g.n
    ensures |scan| == g.n
  {
    seq(g.n, v requires 0 <= v < g.n => g.fwd[v] + g.bwd[v])
  }

  method AllOffsets(n: nat) returns (s: set<nat>)
    ensures s == NodeSet(n)
  {
    s := {};
    for i := 0 to n
      invariant s == NodeSet(i)
    {
      s := s + {i};
    }
  }

  /** A 32-bit counter that runs up to a limit of 2^32 or more: after any number of steps it is below the
      limit, so the loop never ends. */
  lemma CounterNeverEnds(limit: nat, steps: nat)
    requires limit >= 0x1_0000_0000
    ensures steps % 0x1_0000_0000 < limit
  {
  }
}
