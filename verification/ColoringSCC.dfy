/** Strongly connected components by forward and backward colouring
    (algo/src/function/strongly_connected_components.cpp). */
module ColoringSCC {
  import opened Reachability
  import opened Graphs
  import opened MinLabel
  import Kosaraju = KosarajuSCC

  const INVALID: nat := 0xFFFF_FFFF_FFFF_FFFF

  ghost function Done(ids: seq<nat>): set<nat> {
    set v | v in NodeSet(|ids|) && ids[v] != INVALID
  }

  ghost predicate LeastInSCC(g: Graph, v: nat, c: nat)
    requires g.Valid()
  {
    c < g.n && Mutual(g.E(), c, v) && forall u: nat :: u < g.n && Mutual(g.E(), u, v) ==> c <= u
  }

  /** Any id handed out so far names a node of the same component. */
  ghost predicate SameSCC(g: Graph, ids: seq<nat>) {
    && g.Valid() && |ids| == g.n
    && forall v: nat :: v < g.n && ids[v] != INVALID ==> Mutual(g.E(), ids[v], v)
  }

  /** Ids have been handed out to whole components only, each the least id of its component. */
  ghost predicate WholeSCCs(g: Graph, ids: seq<nat>) {
    && g.Valid() && |ids| == g.n
    && (forall v: nat :: v < g.n && ids[v] != INVALID ==> LeastInSCC(g, v, ids[v]))
    && (forall u: nat, v: nat :: u < g.n && v < g.n && Mutual(g.E(), u, v) && ids[u] != INVALID ==> ids[v] != INVALID)
  }

  /** Edges between nodes without an id. */
  ghost function OpenEdges(g: Graph, D: set<nat>): Edges
    requires g.Valid()
  {
    set e | e in g.E() && e.0 !in D && e.1 !in D
  }

  lemma OpenIsOpenEdges(g: Graph, D: set<nat>)
    requires g.Valid()
    ensures InRange(g.fwd) && InRange(g.bwd)
    ensures Open(g.fwd, D) == OpenEdges(g, D) && Open(g.bwd, D) == Transpose(OpenEdges(g, D))
  {
    var A, B := Open(g.fwd, D), Open(g.bwd, D);
    forall b: nat, w: nat
      ensures (b, w) in A <==> (b, w) in OpenEdges(g, D)
      ensures (b, w) in B <==> (b, w) in Transpose(OpenEdges(g, D))
    {
      OpenEdge(g.fwd, D, b, w);
      OpenEdge(g.bwd, D, b, w);
      g.EdgeIsForward(b, w);
      g.EdgeIsBackward(w, b);
      assert (b, w) in Transpose(OpenEdges(g, D)) <==> (w, b) in OpenEdges(g, D);
    }
    assert forall e :: e in A || e in B || e in OpenEdges(g, D) || e in Transpose(OpenEdges(g, D)) ==> e == (e.0, e.1);
  }

  /** Nodes of one component reach each other without leaving it, hence through unassigned nodes. */
  lemma {:induction false} TwinPathIsOpen(g: Graph, D: set<nat>, u: nat, v: nat, p: seq<nat>)
    requires g.Valid() && IsPath(g.E(), u, v, p) && Reach(g.E(), v, u)
    requires u !in D && forall x, y :: Mutual(g.E(), x, y) && x in D ==> y in D
    ensures Reach(OpenEdges(g, D), u, v)
    decreases |p|
  {
    var A := OpenEdges(g, D);
    if p == [] {
      ReachRefl(A, u);
    } else {
      var w := p[0];
      ReachEdge(g.E(), u, w);
      assert IsPath(g.E(), w, v, p[1..]);
      ReachTrans(g.E(), w, v, u);
      ReachTrans(g.E(), v, u, w);
      assert Mutual(g.E(), w, u);
      TwinPathIsOpen(g, D, w, v, p[1..]);
      ReachEdge(A, u, w);
      ReachTrans(A, u, w, v);
    }
  }

  lemma TwinsReachOpen(g: Graph, D: set<nat>, u: nat, v: nat)
    requires g.Valid() && Mutual(g.E(), u, v)
    requires u !in D && forall x, y :: Mutual(g.E(), x, y) && x in D ==> y in D
    ensures Reach(OpenEdges(g, D), u, v)
  {
    var p :| IsPath(g.E(), u, v, p);
    TwinPathIsOpen(g, D, u, v, p);
  }

  // ------------------------------------------------------------------ one round

  /** Colours of one round: forward from every unassigned node, backward from the forward roots. */
  ghost predicate Round(g: Graph, ids: seq<nat>, fwd: seq<nat>, bwd: seq<nat>) {
    && WholeSCCs(g, ids) && |fwd| == g.n && |bwd| == g.n
    && var A := OpenEdges(g, Done(ids));
    && Fixpoint(A, Left(ids), fwd)
    && Fixpoint(Transpose(A), Roots(ids, fwd), bwd)
  }

  ghost function Left(ids: seq<nat>): set<nat> {
    NodeSet(|ids|) - Done(ids)
  }

  ghost function Roots(ids: seq<nat>, fwd: seq<nat>): set<nat>
    requires |fwd| == |ids|
  {
    set v | v in Left(ids) && fwd[v] == v
  }

  /** The update step: equal colours become the id. */
  function NewIds(ids: seq<nat>, fwd: seq<nat>, bwd: seq<nat>): (ids': seq<nat>)
    requires |fwd| == |ids| && |bwd| == |ids|
    ensures |ids'| == |ids|
  {
    seq(|ids|, v requires 0 <= v < |ids| => if ids[v] == INVALID && fwd[v] == bwd[v] then fwd[v] else ids[v])
  }

  lemma ClosedDone(g: Graph, ids: seq<nat>)
    requires WholeSCCs(g, ids)
    ensures forall x, y :: Mutual(g.E(), x, y) && x in Done(ids) ==> y in Done(ids)
  {
    forall x, y | Mutual(g.E(), x, y) && x in Done(ids)
      ensures y in Done(ids)
    {
      g.ReachInRange(x, y);
    }
  }

  /** Equal colours always come from one component, however early the propagation was stopped. */
  lemma EqualColoursAreTwins(g: Graph, D: set<nat>, S: set<nat>, R: set<nat>, fwd: seq<nat>, bwd: seq<nat>, v: nat)
    requires g.Valid() && v < |fwd| == |bwd|
    requires Sound(OpenEdges(g, D), S, fwd) && Sound(Transpose(OpenEdges(g, D)), R, bwd)
    requires fwd[v] == bwd[v]
    ensures Mutual(g.E(), fwd[v], v)
  {
    var A, c := OpenEdges(g, D), fwd[v];
    ReachRefl(g.E(), v);
    if c != v {
      ReachMonotone(A, g.E(), c, v);
      ReachReverses(A, v, c);
      ReachMonotone(A, g.E(), v, c);
    }
  }

  /** The forward colour is at most the id of any unassigned node of the component. */
  lemma ForwardBound(g: Graph, ids: seq<nat>, fwd: seq<nat>, u: nat, v: nat)
    requires WholeSCCs(g, ids) && |fwd| == g.n && Fixpoint(OpenEdges(g, Done(ids)), Left(ids), fwd)
    requires u < g.n && v < g.n && u in Left(ids) && Reach(OpenEdges(g, Done(ids)), u, v)
    ensures fwd[v] <= u
  {
    var A, D := OpenEdges(g, Done(ids)), Done(ids);
    forall w: nat | w < g.n && Reach(A, u, w)
      ensures w in Left(ids)
    {
      assert Closed(A, Left(ids)) by {
        assert forall e :: e in A ==> e.1 < g.n && e.1 !in D;
      }
      ReachStaysInside(A, u, w, Left(ids));
    }
    assert forall e :: e in A ==> e.1 < g.n;
    ReachBounds(A, Left(ids), fwd, u, v);
  }

  /** All unassigned nodes of a component get one forward colour, and it bounds none of them from below. */
  lemma ForwardShared(g: Graph, ids: seq<nat>, fwd: seq<nat>, u: nat, v: nat)
    requires WholeSCCs(g, ids) && |fwd| == g.n && Fixpoint(OpenEdges(g, Done(ids)), Left(ids), fwd)
    requires u < g.n && v < g.n && u in Left(ids) && v in Left(ids) && Mutual(g.E(), u, v)
    ensures fwd[u] == fwd[v] && fwd[v] <= u
  {
    var A := OpenEdges(g, Done(ids));
    ClosedDone(g, ids);
    TwinsReachOpen(g, Done(ids), u, v);
    TwinsReachOpen(g, Done(ids), v, u);
    ForwardBound(g, ids, fwd, u, v);
    ReachTrans(A, fwd[u], u, v);
    ReachTrans(A, fwd[v], v, u);
    ForwardBound(g, ids, fwd, fwd[u], v);
    ForwardBound(g, ids, fwd, fwd[v], u);
  }

  /** Only larger nodes reach a forward root, so nothing stops its backward colour. */
  lemma BackwardBound(g: Graph, ids: seq<nat>, fwd: seq<nat>, bwd: seq<nat>, c: nat, v: nat)
    requires Round(g, ids, fwd, bwd)
    requires c in Roots(ids, fwd) && v < g.n && Reach(Transpose(OpenEdges(g, Done(ids))), c, v)
    ensures bwd[v] <= c
  {
    var A := OpenEdges(g, Done(ids));
    var B, R := Transpose(A), Roots(ids, fwd);
    forall w: nat | w < g.n && Reach(B, c, w)
      ensures c <= w
    {
      ReachReverses(A, w, c);
      assert Closed(B, Left(ids)) by {
        assert forall e :: e in B ==> e.1 < g.n && e.1 !in Done(ids);
      }
      ReachStaysInside(B, c, w, Left(ids));
      ForwardBound(g, ids, fwd, w, c);
    }
    assert forall e :: e in B ==> e.1 < g.n;
    ReachBounds(B, R, bwd, c, v);
  }

  /** If one node of a component gets its id, so does every other, and it is the least. */
  lemma RoundAssignsWhole(g: Graph, ids: seq<nat>, fwd: seq<nat>, bwd: seq<nat>, v: nat, u: nat)
    requires Round(g, ids, fwd, bwd)
    requires v < g.n && u < g.n && v in Left(ids) && fwd[v] == bwd[v] && Mutual(g.E(), u, v)
    ensures u in Left(ids) && fwd[u] == bwd[u] == fwd[v] <= u
  {
    var A, c := OpenEdges(g, Done(ids)), fwd[v];
    var B, R := Transpose(A), Roots(ids, fwd);
    ClosedDone(g, ids);
    assert u in Left(ids);
    ForwardShared(g, ids, fwd, u, v);
    EqualColoursAreTwins(g, Done(ids), Left(ids), R, fwd, bwd, v);
    assert c in Left(ids);
    ForwardShared(g, ids, fwd, c, v);
    assert c in R;
    MutualTrans(g.E(), c, v, u);
    TwinsReachOpen(g, Done(ids), u, c);
    ReachReverses(A, u, c);
    BackwardBound(g, ids, fwd, bwd, c, u);
    if bwd[u] != u {
      TwinsReachOpen(g, Done(ids), v, u);
      ReachReverses(A, v, u);
      ReachTrans(B, bwd[u], u, v);
      BackwardBound(g, ids, fwd, bwd, bwd[u], v);
    }
  }

  lemma RoundKeepsWhole(g: Graph, ids: seq<nat>, fwd: seq<nat>, bwd: seq<nat>)
    requires Round(g, ids, fwd, bwd) && g.n <= INVALID
    ensures WholeSCCs(g, NewIds(ids, fwd, bwd))
  {
    hide Fixpoint;
    var ids' := NewIds(ids, fwd, bwd);
    forall v: nat | v < g.n && ids'[v] != INVALID
      ensures LeastInSCC(g, v, ids'[v])
    {
      if ids[v] == INVALID {
        RoundLeast(g, ids, fwd, bwd, v);
      }
    }
    forall u: nat, v: nat | u < g.n && v < g.n && Mutual(g.E(), u, v) && ids'[u] != INVALID
      ensures ids'[v] != INVALID
    {
      if ids[u] == INVALID {
        RoundAssignsWhole(g, ids, fwd, bwd, u, v);
      }
    }
  }

  lemma RoundLeast(g: Graph, ids: seq<nat>, fwd: seq<nat>, bwd: seq<nat>, v: nat)
    requires Round(g, ids, fwd, bwd) && v < g.n && ids[v] == INVALID && fwd[v] == bwd[v]
    ensures LeastInSCC(g, v, fwd[v])
  {
    EqualColoursAreTwins(g, Done(ids), Left(ids), Roots(ids, fwd), fwd, bwd, v);
    forall u: nat | u < g.n && Mutual(g.E(), u, v)
      ensures fwd[v] <= u
    {
      RoundAssignsWhole(g, ids, fwd, bwd, v, u);
    }
  }

  /** The smallest unassigned node always gets its id. */
  lemma RoundProgress(g: Graph, ids: seq<nat>, fwd: seq<nat>, bwd: seq<nat>, m: nat)
    requires Round(g, ids, fwd, bwd) && m in Left(ids) && forall v :: v in Left(ids) ==> m <= v
    ensures NewIds(ids, fwd, bwd)[m] == m
  {
  }

  // ------------------------------------------------------------------ number of rounds

  ghost function SCCs(g: Graph): set<nat>
    requires g.Valid()
  {
    set c | c in NodeSet(g.n) && LeastInSCC(g, c, c)
  }

  /** The components that have their id. */
  ghost function DoneSCCs(g: Graph, ids: seq<nat>): set<nat>
    requires g.Valid()
  {
    SCCs(g) * Done(ids)
  }

  lemma RoundCounts(g: Graph, ids: seq<nat>, fwd: seq<nat>, bwd: seq<nat>)
    requires Round(g, ids, fwd, bwd) && g.n <= INVALID && Left(ids) != {}
    ensures |DoneSCCs(g, NewIds(ids, fwd, bwd))| > |DoneSCCs(g, ids)|
  {
    var m := SmallestLeft(ids);
    var ids' := NewIds(ids, fwd, bwd);
    RoundProgress(g, ids, fwd, bwd, m);
    assert LeastInSCC(g, m, m) by {
      assert fwd[m] == bwd[m] == m;
      RoundLeast(g, ids, fwd, bwd, m);
    }
    hide LeastInSCC, Round;
    assert m in DoneSCCs(g, ids') && m !in DoneSCCs(g, ids);
    assert DoneSCCs(g, ids) <= DoneSCCs(g, ids');
    SubsetSize(DoneSCCs(g, ids) + {m}, DoneSCCs(g, ids'));
  }

  lemma SmallestLeft(ids: seq<nat>) returns (m: nat)
    requires Left(ids) != {}
    ensures m in Left(ids) && forall v :: v in Left(ids) ==> m <= v
  {
    m :| m in Left(ids);
    while exists v :: v in Left(ids) && v < m
      invariant m in Left(ids)
      decreases m
    {
      var v :| v in Left(ids) && v < m;
      m := v;
    }
  }

  lemma AllCounted(g: Graph, ids: seq<nat>)
    requires WholeSCCs(g, ids) && |DoneSCCs(g, ids)| >= |SCCs(g)|
    ensures Left(ids) == {}
  {
    SubsetSize(DoneSCCs(g, ids), SCCs(g));
    if Left(ids) != {} {
      var v :| v in Left(ids);
      var c := LeastOf(g, v);
    }
  }

  lemma {:induction false} LeastOf(g: Graph, v: nat) returns (c: nat)
    requires g.Valid() && v < g.n
    ensures c in SCCs(g) && Mutual(g.E(), c, v)
    decreases v
  {
    ReachRefl(g.E(), v);
    if LeastInSCC(g, v, v) {
      c := v;
    } else {
      var u: nat :| u < g.n && Mutual(g.E(), u, v) && u < v;
      c := LeastOf(g, u);
      MutualTrans(g.E(), c, u, v);
    }
  }

  // ------------------------------------------------------------------ the rounds

  /** The nodes without an id, with one, and the forward roots among the former. */
  method Split(ids: array<nat>) returns (left: set<nat>, done: set<nat>)
    ensures left == Left(ids[..]) && done == Done(ids[..])
  {
    left, done := {}, {};
    for i := 0 to ids.Length
      invariant forall v: nat :: v in done <==> v < i && ids[v] != INVALID
      invariant forall v: nat :: v in left <==> v < i && ids[v] == INVALID
    {
      if ids[i] != INVALID { done := done + {i}; } else { left := left + {i}; }
    }
  }

  method RootsOf(ids: array<nat>, fwd: array<nat>) returns (roots: set<nat>)
    requires ids.Length == fwd.Length
    ensures roots == Roots(ids[..], fwd[..])
  {
    roots := {};
    for i := 0 to ids.Length
      invariant forall v: nat :: v in roots <==> v < i && ids[v] == INVALID && fwd[v] == v
    {
      if ids[i] == INVALID && fwd[i] == i { roots := roots + {i}; }
    }
  }

  /** Equal colours become ids; reports whether an unassigned node kept different ones. */
  method UpdateComponentIDs(ids: array<nat>, fwd: array<nat>, bwd: array<nat>) returns (hasDifferentColor: bool)
    requires ids.Length == fwd.Length == bwd.Length && ids != fwd && ids != bwd
    modifies ids
    ensures ids[..] == NewIds(old(ids[..]), fwd[..], bwd[..])
    ensures hasDifferentColor <==> exists v: nat :: v < ids.Length && old(ids[v]) == INVALID && fwd[v] != bwd[v]
  {
    hasDifferentColor := false;
    for i := 0 to ids.Length
      invariant forall v :: 0 <= v < i ==> ids[v] == NewIds(old(ids[..]), fwd[..], bwd[..])[v]
      invariant forall v :: i <= v < ids.Length ==> ids[v] == old(ids[v])
      invariant hasDifferentColor <==> exists v: nat :: v < i && old(ids[v]) == INVALID && fwd[v] != bwd[v]
    {
      if ids[i] == INVALID {
        if fwd[i] == bwd[i] {
          ids[i] := fwd[i];
        } else {
          hasDifferentColor := true;
        }
      }
    }
  }

  /** One round: colours forward from every node without an id, backward from the forward roots, and
      hands out ids. `drained` tells whether both propagations ran out of work. */
  method RunRound(g: Graph, ids: array<nat>, limit: nat) returns (drained: bool, hasDifferentColor: bool)
    requires g.Valid() && ids.Length == g.n <= INVALID && SameSCC(g, ids[..])
    modifies ids
    ensures SameSCC(g, ids[..])
    ensures !hasDifferentColor ==> Left(ids[..]) == {}
    ensures limit >= g.n ==> drained
    ensures drained && old(WholeSCCs(g, ids[..])) ==>
              && WholeSCCs(g, ids[..])
              && (old(Left(ids[..])) != {} ==> |DoneSCCs(g, ids[..])| > old(|DoneSCCs(g, ids[..])|))
              && (old(Left(ids[..])) == {} ==> Left(ids[..]) == {})
  {
    hide WholeSCCs, SameSCC, Sound, Settled, Open, OpenEdges, Graph.Valid, InRange, DoneSCCs;
    ghost var ids0 := ids[..];
    var fwd := new nat[g.n](i => i);
    var bwd := new nat[g.n](i => i);
    var left, done := Split(ids);
    OpenIsOpenEdges(g, Done(ids0));
    g.Sizes();
    var d1, _ := Propagate(g.fwd, done, left, fwd, limit);
    var roots := RootsOf(ids, fwd);
    var d2, _ := Propagate(g.bwd, done, roots, bwd, limit);
    drained := d1 && d2;
    hasDifferentColor := UpdateComponentIDs(ids, fwd, bwd);
    SoundRound(g, ids0, fwd[..], bwd[..]);
    if drained && WholeSCCs(g, ids0) {
      assert Round(g, ids0, fwd[..], bwd[..]);
      RoundKeepsWhole(g, ids0, fwd[..], bwd[..]);
      if Left(ids0) != {} {
        RoundCounts(g, ids0, fwd[..], bwd[..]);
      }
    }
  }

  lemma SoundRound(g: Graph, ids: seq<nat>, fwd: seq<nat>, bwd: seq<nat>)
    requires SameSCC(g, ids) && |fwd| == |bwd| == g.n <= INVALID
    requires Sound(OpenEdges(g, Done(ids)), Left(ids), fwd)
    requires Sound(Transpose(OpenEdges(g, Done(ids))), Roots(ids, fwd), bwd)
    ensures SameSCC(g, NewIds(ids, fwd, bwd))
    ensures (forall v: nat :: v < g.n && ids[v] == INVALID ==> fwd[v] == bwd[v]) ==> Left(NewIds(ids, fwd, bwd)) == {}
    ensures Left(ids) == {} ==> Left(NewIds(ids, fwd, bwd)) == {}
  {
    forall v: nat | v < g.n && ids[v] == INVALID && fwd[v] == bwd[v]
      ensures Mutual(g.E(), fwd[v], v)
    {
      EqualColoursAreTwins(g, Done(ids), Left(ids), Roots(ids, fwd), fwd, bwd, v);
    }
  }

  /** The SCC table function; one limit bounds the rounds and the iterations of each propagation. Every id handed
      out names a node of the same component. If every propagation runs out of work, ids go to whole components
      and are their least ids; with at least as many rounds as components, every node has one. A limit of at
      least the number of nodes is enough for both. */
  method StronglyConnected(g: Graph, maxIterations: nat) returns (result: seq<nat>, drained: bool)
    requires g.Valid() && g.n < 0x1_0000_0000
    ensures SameSCC(g, result)
    ensures drained ==> WholeSCCs(g, result)
    ensures drained && maxIterations >= |SCCs(g)| ==> forall v: nat :: v < g.n ==> LeastInSCC(g, v, result[v])
    ensures maxIterations >= g.n ==> drained && maxIterations >= |SCCs(g)|
  {
    var ids := new nat[g.n](_ => INVALID);
    drained := true;
    assert Done(ids[..]) == {};
    var i := 0;
    while i < maxIterations
      invariant 0 <= i <= maxIterations && SameSCC(g, ids[..])
      invariant drained ==> WholeSCCs(g, ids[..])
      invariant maxIterations >= g.n ==> drained
      invariant drained ==> |DoneSCCs(g, ids[..])| >= i || Left(ids[..]) == {}
    {
      var d, hasDifferentColor := RunRound(g, ids, maxIterations);
      drained := drained && d;
      i := i + 1;
      if !hasDifferentColor { break; }
    }
    result := ids[..];
    SubsetSize(SCCs(g), NodeSet(g.n));
    if drained && maxIterations >= |SCCs(g)| {
      AllLeast(g, result);
    }
  }

  lemma AllLeast(g: Graph, ids: seq<nat>)
    requires WholeSCCs(g, ids) && (Left(ids) == {} || |DoneSCCs(g, ids)| >= |SCCs(g)|)
    ensures forall v: nat :: v < g.n ==> LeastInSCC(g, v, ids[v])
  {
    if Left(ids) != {} {
      AllCounted(g, ids);
    }
    forall v: nat | v < g.n
      ensures ids[v] != INVALID
    {
      assert v !in Left(ids);
    }
  }

  /** Colouring and Kosaraju's search find the same partition. */
  lemma SamePartition(g: Graph, colours: seq<nat>, kosaraju: seq<nat>, u: nat, v: nat)
    requires g.Valid() && |colours| == g.n && u < g.n && v < g.n
    requires forall w: nat :: w < g.n ==> LeastInSCC(g, w, colours[w])
    requires Kosaraju.ComponentsFound(g, kosaraju)
    ensures colours[u] == colours[v] <==> kosaraju[u] == kosaraju[v]
  {
    assert LeastInSCC(g, u, colours[u]) && LeastInSCC(g, v, colours[v]);
    if colours[u] == colours[v] {
      MutualTrans(g.E(), u, colours[u], v);
    }
    if Mutual(g.E(), u, v) {
      MutualTrans(g.E(), colours[u], u, v);
      MutualTrans(g.E(), colours[v], v, u);
    }
  }
}
