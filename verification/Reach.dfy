/** Directed reachability over a finite edge set, shared by the graph algorithms.
    A path is the sequence of nodes after the first one. */
module Reachability {

  type Edges = set<(nat, nat)>

  ghost predicate IsPath(E: Edges, u: nat, v: nat, p: seq<nat>)
    decreases |p|
  {
    if p == [] then u == v
    else (u, p[0]) in E && IsPath(E, p[0], v, p[1..])
  }

  ghost predicate Reach(E: Edges, u: nat, v: nat) {
    exists p: seq<nat> :: IsPath(E, u, v, p)
  }

  ghost predicate Mutual(E: Edges, u: nat, v: nat) {
    Reach(E, u, v) && Reach(E, v, u)
  }

  ghost predicate Closed(E: Edges, S: set<nat>) {
    forall e :: e in E && e.0 in S ==> e.1 in S
  }

  lemma ReachRefl(E: Edges, u: nat)
    ensures Reach(E, u, u)
  {
    assert IsPath(E, u, u, []);
  }

  lemma {:induction false} PathConcat(E: Edges, u: nat, v: nat, w: nat, p: seq<nat>, q: seq<nat>)
    requires IsPath(E, u, v, p) && IsPath(E, v, w, q)
    ensures IsPath(E, u, w, p + q)
    decreases |p|
  {
    if p == [] {
      assert p + q == q;
    } else {
      PathConcat(E, p[0], v, w, p[1..], q);
      assert (p + q)[1..] == p[1..] + q;
    }
  }

  lemma ReachTrans(E: Edges, u: nat, v: nat, w: nat)
    requires Reach(E, u, v) && Reach(E, v, w)
    ensures Reach(E, u, w)
  {
    var p :| IsPath(E, u, v, p);
    var q :| IsPath(E, v, w, q);
    PathConcat(E, u, v, w, p, q);
  }

  lemma ReachEdge(E: Edges, u: nat, v: nat)
    requires (u, v) in E
    ensures Reach(E, u, v)
  {
    assert IsPath(E, v, v, [v][1..]);
    assert IsPath(E, u, v, [v]);
  }

  lemma MutualTrans(E: Edges, u: nat, v: nat, w: nat)
    requires Mutual(E, u, v) && Mutual(E, v, w)
    ensures Mutual(E, u, w)
  {
    ReachTrans(E, u, v, w);
    ReachTrans(E, w, v, u);
  }

  /** Induction along a path: a closed set that contains the source contains every reachable node. */
  lemma {:induction false} PathStaysInside(E: Edges, u: nat, v: nat, p: seq<nat>, S: set<nat>)
    requires IsPath(E, u, v, p) && Closed(E, S) && u in S
    ensures v in S
    decreases |p|
  {
    if p != [] {
      assert (u, p[0]).1 in S;
      PathStaysInside(E, p[0], v, p[1..], S);
    }
  }

  lemma ReachStaysInside(E: Edges, u: nat, v: nat, S: set<nat>)
    requires Reach(E, u, v) && Closed(E, S) && u in S
    ensures v in S
  {
    var p :| IsPath(E, u, v, p);
    PathStaysInside(E, u, v, p, S);
  }

  /** A path that leaves S has an edge that crosses its border. */
  lemma {:induction false} PathLeaves(E: Edges, u: nat, v: nat, p: seq<nat>, S: set<nat>) returns (a: nat, b: nat)
    requires IsPath(E, u, v, p) && u in S && v !in S
    ensures (a, b) in E && a in S && b !in S
    ensures Reach(E, u, a) && Reach(E, b, v)
    decreases |p|
  {
    if p[0] in S {
      a, b := PathLeaves(E, p[0], v, p[1..], S);
      ReachEdge(E, u, p[0]);
      ReachTrans(E, u, p[0], a);
    } else {
      a, b := u, p[0];
      ReachRefl(E, u);
    }
  }

  lemma ReachLeaves(E: Edges, u: nat, v: nat, S: set<nat>) returns (a: nat, b: nat)
    requires Reach(E, u, v) && u in S && v !in S
    ensures (a, b) in E && a in S && b !in S
    ensures Reach(E, u, a) && Reach(E, b, v)
  {
    var p :| IsPath(E, u, v, p);
    a, b := PathLeaves(E, u, v, p, S);
  }

  lemma {:induction false} PathMonotone(E: Edges, E': Edges, u: nat, v: nat, p: seq<nat>)
    requires E <= E' && IsPath(E, u, v, p)
    ensures IsPath(E', u, v, p)
    decreases |p|
  {
    if p != [] {
      PathMonotone(E, E', p[0], v, p[1..]);
    }
  }

  lemma ReachMonotone(E: Edges, E': Edges, u: nat, v: nat)
    requires E <= E' && Reach(E, u, v)
    ensures Reach(E', u, v)
  {
    var p :| IsPath(E, u, v, p);
    PathMonotone(E, E', u, v, p);
  }

  ghost function Transpose(E: Edges): Edges {
    set e | e in E :: (e.1, e.0)
  }

  lemma TransposeTwice(E: Edges)
    ensures Transpose(Transpose(E)) == E
  {
    forall e | e in E
      ensures e in Transpose(Transpose(E))
    {
      assert (e.1, e.0) in Transpose(E);
    }
  }

  lemma {:induction false} PathReverses(E: Edges, u: nat, v: nat, p: seq<nat>)
    requires IsPath(E, u, v, p)
    ensures Reach(Transpose(E), v, u)
    decreases |p|
  {
    if p == [] {
      ReachRefl(Transpose(E), u);
    } else {
      PathReverses(E, p[0], v, p[1..]);
      assert (p[0], u) in Transpose(E);
      ReachEdge(Transpose(E), p[0], u);
      ReachTrans(Transpose(E), v, p[0], u);
    }
  }

  lemma ReachReverses(E: Edges, u: nat, v: nat)
    ensures Reach(E, u, v) <==> Reach(Transpose(E), v, u)
  {
    if Reach(E, u, v) {
      var p :| IsPath(E, u, v, p);
      PathReverses(E, u, v, p);
    }
    if Reach(Transpose(E), v, u) {
      var p :| IsPath(Transpose(E), v, u, p);
      PathReverses(Transpose(E), v, u, p);
      TransposeTwice(E);
    }
  }
}
