/** Kruskal's algorithm with a ranked disjoint-set structure (algo/src/function/spanning_forest.cpp). */
module Kruskal {
  import opened Reachability
  import opened Graphs
  import opened Forests

  const UINT64_MAX: nat := 0xFFFF_FFFF_FFFF_FFFF

  // ------------------------------------------------------------------ disjoint sets, on values

  /** Parents stay in range and rank strictly increases towards the root. */
  ghost predicate Ranked(p: seq<nat>, r: seq<nat>) {
    && |p| == |r|
    && (forall i :: 0 <= i < |p| ==> p[i] < |p|)
    && (forall i :: 0 <= i < |p| && p[i] != i ==> r[i] < r[p[i]])
  }

  ghost function Higher(r: seq<nat>, i: nat): set<nat>
    requires i < |r|
  {
    set j | j in NodeSet(|r|) && r[j] > r[i]
  }

  lemma HigherShrinks(p: seq<nat>, r: seq<nat>, i: nat)
    requires Ranked(p, r) && i < |p| && p[i] != i
    ensures Higher(r, p[i]) < Higher(r, i)
  {
    assert p[i] in Higher(r, i) && p[i] !in Higher(r, p[i]);
  }

  ghost function Root(p: seq<nat>, r: seq<nat>, i: nat): (c: nat)
    requires Ranked(p, r) && i < |p|
    ensures c < |p| && p[c] == c
    ensures c != i ==> r[i] < r[c]
    decreases Higher(r, i)
  {
    if p[i] == i then i
    else
      HigherShrinks(p, r, i);
      Root(p, r, p[i])
  }

  ghost function Class(p: seq<nat>, r: seq<nat>, c: nat): set<nat>
    requires Ranked(p, r)
  {
    set i | i in NodeSet(|p|) && Root(p, r, i) == c
  }

  ghost function Pow2(k: nat): nat {
    if k == 0 then 1 else 2 * Pow2(k - 1)
  }

  /** A root of rank k heads at least 2^k nodes. */
  ghost predicate RankPaid(p: seq<nat>, r: seq<nat>)
    requires Ranked(p, r)
  {
    forall c :: 0 <= c < |p| && p[c] == c ==> Pow2(r[c]) <= |Class(p, r, c)|
  }

  /** Pointing a node at its grandparent changes no root. */
  lemma {:induction false} HalvingKeepsRoots(p: seq<nat>, r: seq<nat>, x: nat, i: nat)
    requires Ranked(p, r) && x < |p| && i < |p|
    ensures Ranked(p[x := p[p[x]]], r)
    ensures Root(p[x := p[p[x]]], r, i) == Root(p, r, i)
    decreases Higher(r, i)
  {
    var q := p[x := p[p[x]]];
    if p[i] != i {
      HigherShrinks(p, r, i);
      if i == x {
        var m := p[i];
        if p[m] == m {
        } else {
          HigherShrinks(p, r, m);
          HalvingKeepsRoots(p, r, x, p[m]);
          assert q[i] == p[m] && q[i] != i;
        }
      } else {
        HalvingKeepsRoots(p, r, x, p[i]);
      }
    }
  }

  /** Hanging root `child` under root `parent` redirects exactly the child's class. */
  lemma {:induction false} LinkRoots(p: seq<nat>, r: seq<nat>, child: nat, parent: nat, r': seq<nat>, i: nat)
    requires Ranked(p, r) && child < |p| && parent < |p| && child != parent && p[child] == child && p[parent] == parent
    requires r' == r || r' == r[parent := r[parent] + 1]
    requires r[child] < r'[parent] && i < |p|
    ensures Ranked(p[child := parent], r')
    ensures Root(p[child := parent], r', i) == if Root(p, r, i) == child then parent else Root(p, r, i)
    decreases Higher(r, i)
  {
    var q := p[child := parent];
    assert Ranked(q, r');
    if p[i] != i {
      HigherShrinks(p, r, i);
      LinkRoots(p, r, child, parent, r', p[i]);
    } else if i == child {
      assert q[child] == parent && q[parent] == parent;
    }
  }

  lemma LinkKeepsRankPaid(p: seq<nat>, r: seq<nat>, child: nat, parent: nat, r': seq<nat>)
    requires |p| == |r| && Ranked(p, r) && RankPaid(p, r)
    requires child < |p| && parent < |p| && child != parent && p[child] == child && p[parent] == parent
    requires (r' == r && r[child] < r[parent]) || (r' == r[parent := r[parent] + 1] && r[child] == r[parent])
    ensures Ranked(p[child := parent], r') && RankPaid(p[child := parent], r')
  {
    LinkRoots(p, r, child, parent, r', child);
    forall c: nat | c < |p| && p[child := parent][c] == c
      ensures Pow2(r'[c]) <= |Class(p[child := parent], r', c)|
    {
      PaidAfterLink(p, r, child, parent, r', c);
    }
  }

  lemma PaidAfterLink(p: seq<nat>, r: seq<nat>, child: nat, parent: nat, r': seq<nat>, c: nat)
    requires |p| == |r| && Ranked(p, r) && RankPaid(p, r)
    requires child < |p| && Ranked(p[child := parent], r')
    requires parent < |p| && child != parent && p[child] == child && p[parent] == parent
    requires (r' == r && r[child] < r[parent]) || (r' == r[parent := r[parent] + 1] && r[child] == r[parent])
    requires c < |p| && c != child && p[c] == c
    ensures Pow2(r'[c]) <= |Class(p[child := parent], r', c)|
  {
    hide Ranked, Class, Pow2;
    LinkClass(p, r, child, parent, r', c);
    assert Pow2(r[c]) <= |Class(p, r, c)| && Pow2(r[child]) <= |Class(p, r, child)|;
    if c == parent {
      ClassesDisjoint(p, r, parent, child);
      Pow2Doubles(r[parent]);
    }
  }

  lemma Pow2Doubles(k: nat)
    ensures Pow2(k + 1) == 2 * Pow2(k)
  {
  }

  lemma ClassesDisjoint(p: seq<nat>, r: seq<nat>, a: nat, b: nat)
    requires Ranked(p, r) && a != b
    ensures |Class(p, r, a) + Class(p, r, b)| == |Class(p, r, a)| + |Class(p, r, b)|
  {
    assert Class(p, r, a) !! Class(p, r, b);
  }

  lemma LinkClass(p: seq<nat>, r: seq<nat>, child: nat, parent: nat, r': seq<nat>, c: nat)
    requires Ranked(p, r) && child < |p| && parent < |p| && child != parent && p[child] == child && p[parent] == parent
    requires r' == r || r' == r[parent := r[parent] + 1]
    requires r[child] < r'[parent] && c != child && Ranked(p[child := parent], r')
    ensures Class(p[child := parent], r', c) ==
              if c == parent then Class(p, r, parent) + Class(p, r, child) else Class(p, r, c)
  {
    forall i | i in NodeSet(|p|)
      ensures i in Class(p[child := parent], r', c) <==> i in Class(p, r, c) || (c == parent && i in Class(p, r, child))
    {
      LinkRoots(p, r, child, parent, r', i);
    }
  }

  /** Ranks are at most logarithmic in the number of nodes. */
  lemma RankIsLogarithmic(p: seq<nat>, r: seq<nat>, i: nat)
    requires Ranked(p, r) && RankPaid(p, r) && i < |p|
    ensures Pow2(r[i]) <= |p|
  {
    var c := Root(p, r, i);
    SubsetSize(Class(p, r, c), NodeSet(|p|));
    Pow2Monotone(r[i], r[c]);
  }

  lemma {:induction false} Pow2Monotone(a: nat, b: nat)
    requires a <= b
    ensures Pow2(a) <= Pow2(b)
  {
    if a < b {
      Pow2Monotone(a, b - 1);
    }
  }

  ghost predicate SameRoots(p: seq<nat>, q: seq<nat>, r: seq<nat>) {
    && Ranked(p, r) && Ranked(q, r)
    && forall i: nat :: i < |p| ==> Root(q, r, i) == Root(p, r, i)
  }

  lemma HalvingStep(p0: seq<nat>, p: seq<nat>, r: seq<nat>, x: nat)
    requires SameRoots(p0, p, r) && RankPaid(p, r) && x < |p|
    ensures var q := p[x := p[p[x]]]; SameRoots(p0, q, r) && RankPaid(q, r)
  {
    var q := p[x := p[p[x]]];
    HalvingKeepsRoots(p, r, x, x);
    forall i: nat | i < |p|
      ensures Root(q, r, i) == Root(p, r, i)
    {
      HalvingKeepsRoots(p, r, x, i);
    }
    forall c | 0 <= c < |q| && q[c] == c
      ensures Pow2(r[c]) <= |Class(q, r, c)|
    {
      assert Class(q, r, c) == Class(p, r, c);
    }
  }

  /** What a merge does to the arrays: root `child` now points to root `parent`. */
  ghost predicate Linked(p: seq<nat>, r: seq<nat>, q: seq<nat>, s: seq<nat>, child: nat, parent: nat) {
    && Ranked(p, r)
    && child < |p| && parent < |p| && child != parent && p[child] == child && p[parent] == parent
    && q == p[child := parent]
    && ((s == r && r[child] < r[parent]) || (s == r[parent := r[parent] + 1] && r[child] == r[parent]))
  }

  /** The root that a merge hangs under the other: the one of lower rank, on a tie the larger id. */
  function HungRoot(r: seq<nat>, a: nat, b: nat): nat
    requires a < |r| && b < |r|
  {
    if r[a] == r[b] then (if a < b then b else a) else if r[a] < r[b] then a else b
  }

  ghost predicate Joined(p: seq<nat>, r: seq<nat>, q: seq<nat>, s: seq<nat>, a: nat, b: nat) {
    && a < |r| && b < |r|
    && var child := HungRoot(r, a, b); Linked(p, r, q, s, child, if child == a then b else a)
  }

  // ------------------------------------------------------------------ sets and connectivity agree

  /** Two nodes share a root exactly when the forest connects them. */
  ghost predicate Agrees(p: seq<nat>, r: seq<nat>, F: set<Edge>)
    requires Ranked(p, r)
  {
    forall u: nat, v: nat :: u < |p| && v < |p| ==> (Root(p, r, u) == Root(p, r, v) <==> Conn(F, u, v))
  }

  lemma AgreesAtStart(p: seq<nat>, r: seq<nat>)
    requires Ranked(p, r) && forall i :: 0 <= i < |p| ==> p[i] == i
    ensures Agrees(p, r, {})
  {
    forall u: nat, v: nat | u < |p| && v < |p|
      ensures u == v <==> Conn({}, u, v)
    {
      ConnRefl({}, u);
      if Conn({}, u, v) {
        assert Links({}) == {};
        ReachStaysInside({}, u, v, {u});
      }
    }
  }

  /** Two finds keep the agreement, so comparing the roots they return decides connectivity. */
  lemma AgreesKept(p0: seq<nat>, p1: seq<nat>, p2: seq<nat>, r: seq<nat>, F: set<Edge>, e: Edge)
    requires SameRoots(p0, p1, r) && SameRoots(p1, p2, r) && Agrees(p0, r, F) && e.src < |p0| && e.dst < |p0|
    ensures Agrees(p2, r, F)
    ensures Root(p1, r, e.src) == Root(p2, r, e.src)
    ensures Root(p2, r, e.src) == Root(p2, r, e.dst) <==> Conn(F, e.src, e.dst)
  {
    hide Conn;
  }

  lemma AgreesAfterJoin(p: seq<nat>, r: seq<nat>, F: set<Edge>, e: Edge, q: seq<nat>, s: seq<nat>)
    requires Ranked(p, r) && Agrees(p, r, F) && e.src < |p| && e.dst < |p|
    requires Joined(p, r, q, s, Root(p, r, e.src), Root(p, r, e.dst))
    ensures Ranked(q, s) && Agrees(q, s, F + {e})
  {
    var a, b := Root(p, r, e.src), Root(p, r, e.dst);
    var child := HungRoot(r, a, b);
    AgreesAfterLink(p, r, F, e, q, s, child, if child == a then b else a);
  }

  lemma AgreesAfterLink(p: seq<nat>, r: seq<nat>, F: set<Edge>, e: Edge, q: seq<nat>, s: seq<nat>, child: nat, parent: nat)
    requires Linked(p, r, q, s, child, parent) && Agrees(p, r, F) && e.src < |p| && e.dst < |p|
    requires || (child == Root(p, r, e.src) && parent == Root(p, r, e.dst))
             || (child == Root(p, r, e.dst) && parent == Root(p, r, e.src))
    ensures Ranked(q, s) && Agrees(q, s, F + {e})
  {
    hide Conn;
    LinkRoots(p, r, child, parent, s, child);
    forall u: nat, v: nat | u < |p| && v < |p|
      ensures Root(q, s, u) == Root(q, s, v) <==> Conn(F + {e}, u, v)
    {
      LinkRoots(p, r, child, parent, s, u);
      LinkRoots(p, r, child, parent, s, v);
      ConnAdd(F, e, u, v);
      assert Conn(F, u, e.src) <==> Root(p, r, u) == Root(p, r, e.src);
      assert Conn(F, u, e.dst) <==> Root(p, r, u) == Root(p, r, e.dst);
      assert Conn(F, e.src, v) <==> Root(p, r, e.src) == Root(p, r, v);
      assert Conn(F, e.dst, v) <==> Root(p, r, e.dst) == Root(p, r, v);
      assert Conn(F, u, v) <==> Root(p, r, u) == Root(p, r, v);
    }
  }

  // ------------------------------------------------------------------ the scan over sorted edges

  /** After i edges: the chosen ones form a forest that spans every prefix seen so far. */
  ghost predicate Scan(n: nat, es: seq<Edge>, F: set<Edge>, i: nat) {
    && i <= |es| && Within(n, Prefix(es, |es|)) && F <= Prefix(es, i) && Acyclic(F)
    && forall k: nat :: k <= i ==> PrefixSpanned(es, F, k)
  }

  lemma ScanStarts(n: nat, es: seq<Edge>)
    requires Within(n, Prefix(es, |es|))
    ensures Scan(n, es, {}, 0)
  {
  }

  lemma ScanInRange(n: nat, es: seq<Edge>, F: set<Edge>, i: nat)
    requires Scan(n, es, F, i) && i < |es|
    ensures es[i].src < n && es[i].dst < n
  {
    assert es[i] in Prefix(es, |es|);
  }

  lemma ScanSkips(n: nat, es: seq<Edge>, F: set<Edge>, i: nat)
    requires Scan(n, es, F, i) && i < |es| && Conn(F, es[i].src, es[i].dst)
    ensures Scan(n, es, F, i + 1)
  {
    hide Conn, Acyclic;
    PrefixStep(es, i);
    SpannedWhole(es, F, i);
    hide Prefix;
    assert F * Prefix(es, i + 1) == F;
  }

  lemma SpannedWhole(es: seq<Edge>, F: set<Edge>, i: nat)
    requires i <= |es| && PrefixSpanned(es, F, i) && F <= Prefix(es, i)
    ensures forall e :: e in Prefix(es, i) ==> Conn(F, e.src, e.dst)
  {
    hide Conn;
    assert F * Prefix(es, i) == F;
  }

  lemma PrefixGrows(es: seq<Edge>, k: nat, i: nat)
    requires k <= i <= |es|
    ensures Prefix(es, k) <= Prefix(es, i)
  {
  }

  lemma ScanTakes(n: nat, es: seq<Edge>, F: set<Edge>, i: nat)
    requires Scan(n, es, F, i) && i < |es| && !Conn(F, es[i].src, es[i].dst)
    ensures es[i] !in F && Scan(n, es, F + {es[i]}, i + 1)
  {
    hide Conn;
    var e, G := es[i], F + {es[i]};
    AcyclicAdd(F, e);
    hide Acyclic;
    PrefixStep(es, i);
    SpannedWhole(es, F, i);
    assert PrefixSpanned(es, F, i);
    forall k: nat | k <= i + 1
      ensures PrefixSpanned(es, G, k)
    {
      if k <= i {
        assert PrefixSpanned(es, F, k);
        PrefixGrows(es, k, i);
        assert G * Prefix(es, k) == F * Prefix(es, k);
      } else {
        assert G * Prefix(es, i + 1) == G;
        forall x | x in Prefix(es, i + 1)
          ensures Conn(G, x.src, x.dst)
        {
          if x == e { ConnEdge(G, e); } else { ConnMonotone(F, G, x.src, x.dst); }
        }
      }
    }
  }

  /** Stopping at n - 1 edges loses nothing: the rest could only be skipped. */
  lemma {:induction false} ScanStopsEarly(n: nat, es: seq<Edge>, F: set<Edge>, i: nat)
    requires Scan(n, es, F, i) && |F| == n - 1
    ensures Scan(n, es, F, |es|)
    decreases |es| - i
  {
    if i < |es| {
      hide Conn, Acyclic;
      assert es[i] in Prefix(es, |es|) && F <= Prefix(es, |es|);
      FullForestConnects(n, F, es[i].src, es[i].dst);
      ScanSkips(n, es, F, i);
      ScanStopsEarly(n, es, F, i + 1);
    }
  }

  // ------------------------------------------------------------------ sorting

  /** The comparator: weight first, then source, target and relationship id; reversed for the maximum. */
  predicate Before(max: bool, a: Edge, b: Edge) {
    if max then Smaller(b, a) else Smaller(a, b)
  }

  predicate Smaller(a: Edge, b: Edge) {
    || a.weight < b.weight
    || (a.weight == b.weight
        && (a.src < b.src || (a.src == b.src && (a.dst < b.dst || (a.dst == b.dst && a.rel < b.rel)))))
  }

  predicate InOrder(max: bool, es: seq<Edge>) {
    forall i, j :: 0 <= i < j < |es| ==> !Before(max, es[j], es[i])
  }

  lemma InsertInOrder(max: bool, s: seq<Edge>, i: nat, e: Edge)
    requires InOrder(max, s) && i <= |s|
    requires forall j :: i <= j < |s| ==> Before(max, e, s[j])
    requires i > 0 ==> !Before(max, e, s[i - 1])
    ensures InOrder(max, s[..i] + [e] + s[i..])
  {
    hide Before;
    var t := s[..i] + [e] + s[i..];
    forall j | 0 <= j < i
      ensures !Before(max, e, s[j])
    {
      if j < i - 1 {
        NotBeforeTrans(max, e, s[i - 1], s[j]);
      }
    }
    forall a, b | 0 <= a < b < |t|
      ensures !Before(max, t[b], t[a])
    {
      if a == i {
        BeforeAsym(max, e, s[b - 1]);
      }
    }
  }

  lemma NotBeforeTrans(max: bool, a: Edge, b: Edge, c: Edge)
    requires !Before(max, a, b) && !Before(max, b, c)
    ensures !Before(max, a, c)
  {
  }

  lemma BeforeAsym(max: bool, a: Edge, b: Edge)
    requires Before(max, a, b)
    ensures !Before(max, b, a)
  {
  }

  lemma InOrderIsSorted(max: bool, es: seq<Edge>)
    requires InOrder(max, es)
    ensures Sorted(es, max)
  {
    forall i, j | 0 <= i < j < |es|
      ensures Signed(max, es[i].weight) <= Signed(max, es[j].weight)
    {
      assert !Before(max, es[j], es[i]);
    }
  }

  // ------------------------------------------------------------------ results

  datatype ResultEdge = ResultEdge(src: nat, dst: nat, rel: nat, forestId: nat)

  ghost predicate Matches(forest: seq<ResultEdge>, chosen: seq<Edge>) {
    |forest| == |chosen| && forall k :: 0 <= k < |forest| ==>
      forest[k].src == chosen[k].src && forest[k].dst == chosen[k].dst && forest[k].rel == chosen[k].rel
  }

  ghost function EdgeSet(es: seq<Edge>): set<Edge> {
    set e | e in es
  }

  /** Two forest edges carry one id exactly when they lie in one tree. */
  ghost predicate IdsNameTrees(forest: seq<ResultEdge>, F: set<Edge>) {
    forall j, k :: 0 <= j < |forest| && 0 <= k < |forest| ==>
      (forest[j].forestId == forest[k].forestId <==> Conn(F, forest[j].src, forest[k].src))
  }

  lemma SortedSameSet(es: seq<Edge>, sorted: seq<Edge>)
    requires multiset(sorted) == multiset(es)
    ensures Prefix(sorted, |sorted|) == EdgeSet(es)
  {
    assert sorted[..|sorted|] == sorted;
    forall e
      ensures e in sorted <==> e in es
    {
      assert e in sorted <==> e in multiset(sorted);
      assert e in es <==> e in multiset(es);
    }
  }

  lemma GreedyFromScan(n: nat, es: seq<Edge>, max: bool, F: set<Edge>)
    requires Sorted(es, max) && Scan(n, es, F, |es|)
    ensures Within(n, F) && SpanningForest(Prefix(es, |es|), F)
    ensures forall T :: SpanningForest(Prefix(es, |es|), T) ==>
              if max then Total(T) <= Total(F) else Total(F) <= Total(T)
  {
    hide Conn, Acyclic, Prefix, SpanningForest, Total;
    GreedyOptimal(n, es, max, F);
    forall T | SpanningForest(Prefix(es, |es|), T)
      ensures if max then Total(T) <= Total(F) else Total(F) <= Total(T)
    {
      assert Signed(max, Total(F)) <= Signed(max, Total(T));
    }
  }

  // ------------------------------------------------------------------ the algorithm

  class KruskalCompute {
    const numNodes: nat
    var edges: seq<Edge>
    var forest: seq<ResultEdge>
    const parents: array<nat>
    const rank: array<nat>
    // The input edges behind `forest`, in the same order.
    ghost var chosen: seq<Edge>

    ghost predicate Valid()
      reads this, parents, rank
    {
      && parents != rank && parents.Length == numNodes && rank.Length == numNodes
      && Ranked(parents[..], rank[..]) && RankPaid(parents[..], rank[..])
    }

    /** Everything before the scan: each node is its own component. */
    constructor (n: nat, es: seq<Edge>)
      ensures numNodes == n && edges == es && forest == [] && chosen == []
      ensures Valid() && fresh(parents) && fresh(rank)
      ensures forall i :: 0 <= i < n ==> parents[i] == i && rank[i] == 0
    {
      numNodes := n;
      edges := es;
      forest, chosen := [], [];
      parents := new nat[n](i => i);
      rank := new nat[n](_ => 0);
      new;
      forall c | 0 <= c < n
        ensures Pow2(rank[..][c]) <= |Class(parents[..], rank[..], c)|
      {
        assert Class(parents[..], rank[..], c) == {c};
      }
    }

    method SortEdges(max: bool)
      modifies this`edges
      ensures multiset(edges) == multiset(old(edges)) && InOrder(max, edges)
    {
      var sorted: seq<Edge> := [];
      for k := 0 to |edges|
        invariant edges == old(edges) && InOrder(max, sorted)
        invariant multiset(sorted) == multiset(edges[..k])
      {
        sorted := Insert(max, sorted, edges[k]);
        assert edges[..k + 1] == edges[..k] + [edges[k]];
      }
      assert edges[..|edges|] == edges;
      edges := sorted;
    }

    static method Insert(max: bool, s: seq<Edge>, e: Edge) returns (t: seq<Edge>)
      requires InOrder(max, s)
      ensures InOrder(max, t) && multiset(t) == multiset(s) + multiset{e}
    {
      var i := |s|;
      while i > 0 && Before(max, e, s[i - 1])
        invariant 0 <= i <= |s| && forall j :: i <= j < |s| ==> Before(max, e, s[j])
      {
        i := i - 1;
      }
      t := s[..i] + [e] + s[i..];
      InsertInOrder(max, s, i, e);
      assert s == s[..i] + s[i..];
    }

    /** Returns the root of nodeId's class; shortens its own parent chain and changes no class. */
    method FindComponent(nodeId: nat) returns (c: nat)
      requires Valid() && nodeId < numNodes
      modifies parents
      ensures Valid() && SameRoots(old(parents[..]), parents[..], rank[..])
      ensures c == Root(parents[..], rank[..], nodeId)
    {
      ghost var p0, r := parents[..], rank[..];
      while parents[nodeId] != parents[parents[nodeId]]
        invariant Valid() && SameRoots(p0, parents[..], r)
        decreases Higher(r, parents[nodeId])
      {
        ghost var p := parents[..];
        HigherShrinks(p, r, p[nodeId]);
        HalvingStep(p0, p, r, nodeId);
        parents[nodeId] := parents[parents[nodeId]];
        assert parents[..] == p[nodeId := p[p[nodeId]]];
      }
      c := parents[nodeId];
    }

    /** Joins the two given classes; the lower rank, or on equal ranks the larger id, is hung under. */
    method MergeComponents(srcCompId: nat, dstCompId: nat)
      requires Valid() && srcCompId < numNodes && dstCompId < numNodes && srcCompId != dstCompId
      requires parents[srcCompId] == srcCompId && parents[dstCompId] == dstCompId
      modifies parents, rank
      ensures Valid()
      ensures Joined(old(parents[..]), old(rank[..]), parents[..], rank[..], srcCompId, dstCompId)
    {
      hide RankPaid, Class, Root;
      ghost var p, r := parents[..], rank[..];
      ghost var child, parent;
      if rank[srcCompId] == rank[dstCompId] {
        var newParent := if srcCompId < dstCompId then srcCompId else dstCompId;
        var newChild := if srcCompId < dstCompId then dstCompId else srcCompId;
        parents[newChild] := newParent;
        rank[newParent] := rank[newParent] + 1;
        child, parent := newChild, newParent;
        assert rank[..] == r[parent := r[parent] + 1];
      } else if rank[srcCompId] < rank[dstCompId] {
        parents[srcCompId] := dstCompId;
        child, parent := srcCompId, dstCompId;
      } else {
        parents[dstCompId] := srcCompId;
        child, parent := dstCompId, srcCompId;
      }
      assert parents[..] == p[child := parent];
      assert Linked(p, r, parents[..], rank[..], child, parent);
      LinkKeepsRankPaid(p, r, child, parent, rank[..]);
    }

    /** Looks up both ends of e and merges their classes unless the forest already connects them. */
    method JoinEnds(e: Edge, ghost F: set<Edge>) returns (joined: bool)
      requires Valid() && e.src < numNodes && e.dst < numNodes && Agrees(parents[..], rank[..], F)
      modifies parents, rank
      ensures Valid() && Agrees(parents[..], rank[..], if joined then F + {e} else F)
      ensures joined <==> !Conn(F, e.src, e.dst)
    {
      hide Agrees, RankPaid, Conn;
      ghost var p0 := parents[..];
      var srcCompId := FindComponent(e.src);
      ghost var p1 := parents[..];
      var dstCompId := FindComponent(e.dst);
      ghost var p2, r := parents[..], rank[..];
      AgreesKept(p0, p1, p2, r, F, e);
      joined := srcCompId != dstCompId;
      if joined {
        MergeComponents(srcCompId, dstCompId);
        AgreesAfterJoin(p2, r, F, e, parents[..], rank[..]);
      }
    }

    /** The scan: the chosen edges form a forest that spans every prefix of the edges, and two nodes
        share a class exactly when that forest connects them. */
    method Run()
      requires Valid() && forest == [] && chosen == []
      requires Within(numNodes, Prefix(edges, |edges|))
      requires forall i :: 0 <= i < numNodes ==> parents[i] == i
      modifies this`forest, this`chosen, parents, rank
      ensures Valid() && Matches(forest, chosen)
      ensures Scan(numNodes, edges, EdgeSet(chosen), |edges|)
      ensures |chosen| == |EdgeSet(chosen)|
      ensures Agrees(parents[..], rank[..], EdgeSet(chosen))
    {
      hide Scan, Agrees, Ranked, RankPaid, Prefix, Within, Conn, Joined;
      ScanStarts(numNodes, edges);
      AgreesAtStart(parents[..], rank[..]);
      assert EdgeSet([]) == {};
      var numEdges: nat := 0;
      var limit := if numNodes == 0 then UINT64_MAX else numNodes - 1;
      var i := 0;
      while i < |edges| && numEdges != limit
        invariant i <= |edges| && Valid() && Matches(forest, chosen)
        invariant Scan(numNodes, edges, EdgeSet(chosen), i)
        invariant numEdges == |chosen| == |EdgeSet(chosen)|
        invariant Agrees(parents[..], rank[..], EdgeSet(chosen))
      {
        var e := edges[i];
        ghost var F := EdgeSet(chosen);
        ScanInRange(numNodes, edges, F, i);
        var joined := JoinEnds(e, F);
        if joined {
          numEdges := numEdges + 1;
          forest := forest + [ResultEdge(e.src, e.dst, e.rel, UINT64_MAX)];
          chosen := chosen + [e];
          ScanTakes(numNodes, edges, F, i);
          assert EdgeSet(chosen) == F + {e};
        } else {
          ScanSkips(numNodes, edges, F, i);
        }
        i := i + 1;
      }
      if i < |edges| {
        ScanInRange(numNodes, edges, EdgeSet(chosen), i);
        ScanStopsEarly(numNodes, edges, EdgeSet(chosen), i);
      }
    }

    /** Gives each forest edge the class of its source; two edges get one id exactly when the forest
        connects them. */
    method AssignForestIds()
      requires Valid() && Matches(forest, chosen) && Agrees(parents[..], rank[..], EdgeSet(chosen))
      requires forall e :: e in chosen ==> e.src < numNodes
      modifies this`forest, parents
      ensures Matches(forest, chosen) && IdsNameTrees(forest, EdgeSet(chosen))
    {
      hide Conn, Ranked, RankPaid, Root;
      ghost var F := EdgeSet(chosen);
      ghost var p0, r := parents[..], rank[..];
      for k := 0 to |forest|
        invariant Valid() && rank[..] == r && Matches(forest, chosen) && SameRoots(p0, parents[..], r)
        invariant forall j :: 0 <= j < k ==> forest[j].forestId == Root(p0, r, forest[j].src)
      {
        assert chosen[k] in chosen;
        var id := FindComponent(forest[k].src);
        assert id == Root(p0, r, forest[k].src);
        forest := forest[k := forest[k].(forestId := id)];
      }
      forall j, k | 0 <= j < |forest| && 0 <= k < |forest|
        ensures forest[j].forestId == forest[k].forestId <==> Conn(F, forest[j].src, forest[k].src)
      {
        assert chosen[j] in chosen && chosen[k] in chosen;
      }
    }
  }

  /** The table function: sort, scan, number the trees. The scan counts edges in 32 bits.
      `chosen` names the input edge behind each result. */
  method Compute(n: nat, es: seq<Edge>, max: bool) returns (forest: seq<ResultEdge>, ghost chosen: seq<Edge>)
    requires Within(n, EdgeSet(es)) && |es| < 0x1_0000_0000
    ensures Matches(forest, chosen) && |EdgeSet(chosen)| == |forest|
    ensures SpanningForest(EdgeSet(es), EdgeSet(chosen))
    ensures forall T :: SpanningForest(EdgeSet(es), T) ==>
              if max then Total(T) <= Total(EdgeSet(chosen)) else Total(EdgeSet(chosen)) <= Total(T)
    ensures IdsNameTrees(forest, EdgeSet(chosen))
  {
    var c := new KruskalCompute(n, es);
    c.SortEdges(max);
    ghost var S := Prefix(c.edges, |c.edges|);
    assert S == EdgeSet(es) by {
      SortedSameSet(es, c.edges);
    }
    c.Run();
    InOrderIsSorted(max, c.edges);
    GreedyFromScan(n, c.edges, max, EdgeSet(c.chosen));
    forall e | e in c.chosen
      ensures e.src < n
    {
      assert e in EdgeSet(c.chosen);
    }
    c.AssignForestIds();
    forest, chosen := c.forest, c.chosen;
  }
}
