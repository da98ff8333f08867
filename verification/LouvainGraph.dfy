/** The in-memory undirected graph of the Louvain method: neighbour lists with weights, every edge
    stored in both directions (algo/src/common/in_mem_graph.cpp and the graph parts of
    algo/src/function/louvain.cpp). */
module LouvainGraph {
  import opened Sums
  import opened Modularities
  import opened Graphs

  const UNASSIGNED: nat := 0xFFFF_FFFF_FFFF_FFFF
  const WORD: nat := 0x1_0000_0000_0000_0000

  datatype Nbr = Nbr(to: nat, w: nat)

  type Adj = seq<seq<Nbr>>

  /** Weight of the entries that point to v. */
  ghost function WeightTo(es: seq<Nbr>, v: nat): nat {
    if es == [] then 0 else WeightTo(es[..|es| - 1], v) + (if es[|es| - 1].to == v then es[|es| - 1].w else 0)
  }

  /** Weight of the entries that point into community c. */
  ghost function WeightIn(es: seq<Nbr>, lab: seq<nat>, c: nat): nat
    requires forall i :: 0 <= i < |es| ==> es[i].to < |lab|
  {
    if es == [] then 0 else WeightIn(es[..|es| - 1], lab, c) + (if lab[es[|es| - 1].to] == c then es[|es| - 1].w else 0)
  }

  ghost function OutWeight(es: seq<Nbr>): nat {
    if es == [] then 0 else OutWeight(es[..|es| - 1]) + es[|es| - 1].w
  }

  /** The weight matrix of the lists. */
  ghost function Mat(adj: Adj): (r: Matrix)
    ensures forall u: nat, v: nat :: r(u, v) == if u < |adj| then WeightTo(adj[u], v) else 0
  {
    (u: nat, v: nat) => if u < |adj| then WeightTo(adj[u], v) else 0
  }

  ghost function Lab(s: seq<nat>): (r: Labels)
    ensures forall u: nat :: r(u) == if u < |s| then s[u] as int else -1
  {
    (u: nat) => if u < |s| then s[u] as int else -1
  }

  ghost predicate InRange(adj: Adj) {
    forall u, i :: 0 <= u < |adj| && 0 <= i < |adj[u]| ==> adj[u][i].to < |adj| && adj[u][i].w > 0
  }

  /** A total weight whose square fits 64 bits. */
  ghost predicate Fits64(total: int) {
    total > 0 && Square(total) < WORD
  }

  lemma FitsBelow(total: int)
    requires Fits64(total)
    ensures 0 < total < WORD && 0 < Square(total) < WORD
  {
    assert total <= total * total;
  }

  /** An undirected graph with some edge, small enough for 64-bit sums of squared degrees. */
  ghost predicate Good(adj: Adj) {
    InRange(adj) && Symmetric(|adj|, Mat(adj)) && Total(|adj|, Mat(adj)) > 0 && Fits64(Total(|adj|, Mat(adj))) && |adj| < UNASSIGNED
  }

  /** Nodes with edges have a community; nodes without may be unassigned. */
  ghost predicate LabelsOk(adj: Adj, lab: seq<nat>, k: nat) {
    && |lab| == |adj|
    && forall u: nat :: u < |adj| ==> lab[u] < k || (lab[u] == UNASSIGNED && adj[u] == [])
  }

  ghost function Mod(adj: Adj, lab: seq<nat>, k: nat): real
    requires Good(adj)
  {
    Modularity(|adj|, Mat(adj), Lab(lab), k)
  }

  function Identity(n: nat): (r: seq<nat>)
    ensures |r| == n && forall u: nat :: u < n ==> r[u] == u
  {
    seq(n, u => u)
  }

  // ------------------------------------------------------------------ lists and matrix agree

  ghost function ToRow(es: seq<Nbr>): (r: nat -> int)
    ensures forall v: nat :: r(v) == WeightTo(es, v)
  {
    (v: nat) => WeightTo(es, v)
  }

  /** Adding up an arbitrary selection of targets over the list or over the matrix row. */
  lemma {:induction false} ListIsRow(n: nat, es: seq<Nbr>, lab: seq<nat>, c: nat)
    requires |lab| == n && forall i :: 0 <= i < |es| ==> es[i].to < n
    ensures Sum(n, OfClass(Lab(lab), ToRow(es), c)) == WeightIn(es, lab, c)
  {
    if es == [] {
      SumZero(n, OfClass(Lab(lab), ToRow(es), c));
    } else {
      var rest, e := es[..|es| - 1], es[|es| - 1];
      ListIsRow(n, rest, lab, c);
      var one := Single(e.to, if lab[e.to] == c then e.w else 0);
      SumHit(n, e.to, one);
      SumPlus(n, OfClass(Lab(lab), ToRow(rest), c), one, OfClass(Lab(lab), ToRow(es), c));
    }
  }

  lemma {:induction false} OutIsRow(n: nat, es: seq<Nbr>)
    requires forall i :: 0 <= i < |es| ==> es[i].to < n
    ensures Sum(n, ToRow(es)) == OutWeight(es)
  {
    if es == [] {
      SumZero(n, ToRow(es));
    } else {
      var rest, e := es[..|es| - 1], es[|es| - 1];
      OutIsRow(n, rest);
      var one := Single(e.to, e.w);
      SumHit(n, e.to, one);
      SumPlus(n, ToRow(rest), one, ToRow(es));
    }
  }

  lemma DegreeIsOut(adj: Adj, u: nat)
    requires InRange(adj) && u < |adj|
    ensures Degrees(|adj|, Mat(adj))(u) == OutWeight(adj[u])
  {
    OutIsRow(|adj|, adj[u]);
    assert forall v: nat :: Mat(adj)(u, v) == WeightTo(adj[u], v);
    SumEq(|adj|, ToRow(adj[u]), (v: nat) => Mat(adj)(u, v));
  }

  /** An entry carries weight between its ends. */
  lemma {:induction false} EntryWeighs(es: seq<Nbr>, i: nat)
    requires i < |es| && es[i].w > 0
    ensures WeightTo(es, es[i].to) > 0
  {
    if i < |es| - 1 {
      EntryWeighs(es[..|es| - 1], i);
    }
  }

  /** Neighbours have edges themselves, so their labels are assigned. */
  lemma NeighbourLabelled(adj: Adj, lab: seq<nat>, k: nat, u: nat, i: nat)
    requires Good(adj) && LabelsOk(adj, lab, k) && u < |adj| && i < |adj[u]|
    ensures adj[adj[u][i].to] != [] && lab[adj[u][i].to] < k
  {
    var v := adj[u][i].to;
    EntryWeighs(adj[u], i);
    assert Mat(adj)(u, v) == Mat(adj)(v, u);
  }

  lemma LabelsAreLabelled(adj: Adj, lab: seq<nat>, k: nat)
    requires Good(adj) && LabelsOk(adj, lab, k)
    ensures Labelled(|adj|, Mat(adj), Lab(lab), k)
  {
    forall u: nat, v: nat | u < |adj| && v < |adj| && Mat(adj)(u, v) != 0
      ensures 0 <= Lab(lab)(u) < k && 0 <= Lab(lab)(v) < k
    {
      assert Mat(adj)(u, v) == Mat(adj)(v, u);
    }
  }

  lemma IdentityOk(adj: Adj)
    ensures LabelsOk(adj, Identity(|adj|), |adj|)
  {
  }

  // ------------------------------------------------------------------ the first graph

  /** All forward slots, and the backward slots except self-loops, each with weight 1. */
  function FirstList(g: Graph, u: nat): (es: seq<Nbr>)
    requires u < |g.fwd| && u < |g.bwd|
  {
    UnitList(g.fwd[u]) + UnitList(Without(g.bwd[u], u))
  }

  function UnitList(s: seq<nat>): (es: seq<Nbr>)
    ensures |es| == |s| && forall i :: 0 <= i < |s| ==> es[i] == Nbr(s[i], 1)
  {
    seq(|s|, i requires 0 <= i < |s| => Nbr(s[i], 1))
  }

  function Without(s: seq<nat>, u: nat): (t: seq<nat>)
    ensures forall i :: 0 <= i < |t| ==> t[i] in s
    ensures forall v: nat :: multiset(t)[v] == if v == u then 0 else multiset(s)[v]
  {
    if s == [] then [] else
      assert s == s[..|s| - 1] + [s[|s| - 1]];
      Without(s[..|s| - 1], u) + (if s[|s| - 1] == u then [] else [s[|s| - 1]])
  }

  lemma {:induction false} UnitWeights(s: seq<nat>, v: nat)
    ensures WeightTo(UnitList(s), v) == multiset(s)[v]
  {
    if s != [] {
      var t, es := s[..|s| - 1], UnitList(s);
      assert s == t + [s[|s| - 1]];
      assert es[..|es| - 1] == UnitList(t);
      UnitWeights(t, v);
    }
  }

  lemma {:induction false} WeightToConcat(es: seq<Nbr>, fs: seq<Nbr>, v: nat)
    ensures WeightTo(es + fs, v) == WeightTo(es, v) + WeightTo(fs, v)
  {
    if fs == [] {
      assert es + fs == es;
    } else {
      assert (es + fs)[..|es + fs| - 1] == es + fs[..|fs| - 1];
      WeightToConcat(es, fs[..|fs| - 1], v);
    }
  }

  lemma FirstWeights(g: Graph, u: nat, v: nat)
    requires g.Valid() && u < g.n && v < g.n
    ensures WeightTo(FirstList(g, u), v) == multiset(g.fwd[u])[v] + (if v == u then 0 else multiset(g.fwd[v])[u])
  {
    WeightToConcat(UnitList(g.fwd[u]), UnitList(Without(g.bwd[u], u)), v);
    UnitWeights(g.fwd[u], v);
    UnitWeights(Without(g.bwd[u], u), v);
  }

  method InitInMemoryGraph(g: Graph) returns (adj: Adj)
    requires g.Valid()
    ensures |adj| == g.n && forall u: nat :: u < g.n ==> adj[u] == FirstList(g, u)
    ensures InRange(adj) && Symmetric(|adj|, Mat(adj))
  {
    adj := [];
    for u := 0 to g.n
      invariant |adj| == u && forall x: nat :: x < u ==> adj[x] == FirstList(g, x)
    {
      adj := adj + [FirstList(g, u)];
    }
    FirstIsUndirected(g, adj);
  }

  lemma FirstIsUndirected(g: Graph, adj: Adj)
    requires g.Valid() && |adj| == g.n && forall u: nat :: u < g.n ==> adj[u] == FirstList(g, u)
    ensures InRange(adj) && Symmetric(|adj|, Mat(adj))
  {
    forall u: nat, i: nat | u < |adj| && i < |adj[u]|
      ensures adj[u][i].to < |adj| && adj[u][i].w > 0
    {
      g.NbrsInRange(u);
      var s := Without(g.bwd[u], u);
      if i >= |g.fwd[u]| {
        assert s[i - |g.fwd[u]|] in g.bwd[u];
      }
    }
    forall u: nat, v: nat | u < |adj| && v < |adj|
      ensures Mat(adj)(u, v) == Mat(adj)(v, u)
    {
      FirstWeights(g, u, v);
      FirstWeights(g, v, u);
    }
  }
}
