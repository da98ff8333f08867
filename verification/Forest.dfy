/** Spanning forests of an undirected weighted multigraph: what Kruskal's result has to be, stated
    without the algorithm, and the counting facts its optimality rests on. */
module Forests {
  import opened Reachability
  import opened Graphs

  datatype Edge = Edge(src: nat, dst: nat, rel: nat, weight: real)

  ghost function Links(F: set<Edge>): Edges {
    (set e | e in F :: (e.src, e.dst)) + (set e | e in F :: (e.dst, e.src))
  }

  /** Connected by edges of F, in either direction. */
  ghost predicate Conn(F: set<Edge>, u: nat, v: nat) {
    Reach(Links(F), u, v)
  }

  /** No edge of F joins what the other edges already connect. */
  ghost predicate Acyclic(F: set<Edge>) {
    forall e :: e in F ==> !Conn(F - {e}, e.src, e.dst)
  }

  ghost predicate SpanningForest(S: set<Edge>, F: set<Edge>) {
    && F <= S && Acyclic(F)
    && forall u, v :: Conn(F, u, v) <==> Conn(S, u, v)
  }

  ghost predicate Within(n: nat, S: set<Edge>) {
    forall e :: e in S ==> e.src < n && e.dst < n
  }

  // ------------------------------------------------------------------ connectivity

  lemma ConnRefl(F: set<Edge>, u: nat)
    ensures Conn(F, u, u)
  {
    ReachRefl(Links(F), u);
  }

  lemma ConnSym(F: set<Edge>, u: nat, v: nat)
    requires Conn(F, u, v)
    ensures Conn(F, v, u)
  {
    ReachReverses(Links(F), u, v);
    var E, T := Links(F), Transpose(Links(F));
    forall x | x in T
      ensures x in E
    {
      assert (x.1, x.0) in E;
    }
    ReachMonotone(T, E, v, u);
  }

  lemma ConnTrans(F: set<Edge>, u: nat, v: nat, w: nat)
    requires Conn(F, u, v) && Conn(F, v, w)
    ensures Conn(F, u, w)
  {
    ReachTrans(Links(F), u, v, w);
  }

  lemma ConnEdge(F: set<Edge>, e: Edge)
    requires e in F
    ensures Conn(F, e.src, e.dst) && Conn(F, e.dst, e.src)
  {
    assert (e.src, e.dst) in Links(F) && (e.dst, e.src) in Links(F);
    ReachEdge(Links(F), e.src, e.dst);
    ReachEdge(Links(F), e.dst, e.src);
  }

  lemma ConnMonotone(F: set<Edge>, G: set<Edge>, u: nat, v: nat)
    requires F <= G && Conn(F, u, v)
    ensures Conn(G, u, v)
  {
    assert Links(F) <= Links(G);
    ReachMonotone(Links(F), Links(G), u, v);
  }

  lemma {:induction false} ConnGeneratedPath(S: set<Edge>, F: set<Edge>, u: nat, v: nat, p: seq<nat>)
    requires IsPath(Links(S), u, v, p)
    requires forall e :: e in S ==> Conn(F, e.src, e.dst)
    ensures Conn(F, u, v)
    decreases |p|
  {
    if p == [] {
      ConnRefl(F, u);
    } else {
      ConnGeneratedPath(S, F, p[0], v, p[1..]);
      var e :| e in S && ((u, p[0]) == (e.src, e.dst) || (u, p[0]) == (e.dst, e.src));
      ConnSym(F, e.src, e.dst);
      ConnTrans(F, u, p[0], v);
    }
  }

  /** If F connects the ends of every edge of S, it connects whatever S connects. */
  lemma ConnGenerated(S: set<Edge>, F: set<Edge>, u: nat, v: nat)
    requires Conn(S, u, v) && forall e :: e in S ==> Conn(F, e.src, e.dst)
    ensures Conn(F, u, v)
  {
    var p :| IsPath(Links(S), u, v, p);
    ConnGeneratedPath(S, F, u, v, p);
  }

  /** Either u and v were connected before e, or through e in one of its two directions. */
  ghost predicate ConnVia(F: set<Edge>, e: Edge, u: nat, v: nat) {
    || Conn(F, u, v)
    || (Conn(F, u, e.src) && Conn(F, e.dst, v))
    || (Conn(F, u, e.dst) && Conn(F, e.src, v))
  }

  lemma {:induction false} ConnAddPath(F: set<Edge>, e: Edge, u: nat, v: nat, p: seq<nat>)
    requires IsPath(Links(F + {e}), u, v, p)
    ensures ConnVia(F, e, u, v)
    decreases |p|
  {
    if p == [] {
      ConnRefl(F, u);
    } else {
      var w := p[0];
      ConnAddPath(F, e, w, v, p[1..]);
      ConnRefl(F, e.src);
      ConnRefl(F, e.dst);
      if (u, w) in Links(F) {
        ReachEdge(Links(F), u, w);
        if Conn(F, w, v) { ConnTrans(F, u, w, v); }
        if Conn(F, w, e.src) { ConnTrans(F, u, w, e.src); }
        if Conn(F, w, e.dst) { ConnTrans(F, u, w, e.dst); }
      }
    }
  }

  lemma ConnAdd(F: set<Edge>, e: Edge, u: nat, v: nat)
    ensures Conn(F + {e}, u, v) <==> ConnVia(F, e, u, v)
  {
    var G := F + {e};
    if Conn(G, u, v) {
      var p :| IsPath(Links(G), u, v, p);
      ConnAddPath(F, e, u, v, p);
    }
    if ConnVia(F, e, u, v) {
      ConnEdge(G, e);
      if Conn(F, u, v) {
        ConnMonotone(F, G, u, v);
      } else if Conn(F, u, e.src) && Conn(F, e.dst, v) {
        ConnMonotone(F, G, u, e.src);
        ConnMonotone(F, G, e.dst, v);
        ConnTrans(G, u, e.src, e.dst);
        ConnTrans(G, u, e.dst, v);
      } else {
        ConnMonotone(F, G, u, e.dst);
        ConnMonotone(F, G, e.src, v);
        ConnTrans(G, u, e.dst, e.src);
        ConnTrans(G, u, e.src, v);
      }
    }
  }

  // ------------------------------------------------------------------ acyclicity

  /** An edge between two components keeps a forest a forest. */
  lemma AcyclicAdd(F: set<Edge>, e: Edge)
    requires Acyclic(F) && !Conn(F, e.src, e.dst)
    ensures e !in F && Acyclic(F + {e})
  {
    if e in F {
      ConnEdge(F, e);
    }
    var G := F + {e};
    forall f | f in G
      ensures !Conn(G - {f}, f.src, f.dst)
    {
      if f == e {
        assert G - {f} == F;
      } else {
        var H := F - {f};
        assert G - {f} == H + {e};
        ConnAdd(H, e, f.src, f.dst);
        if ConnVia(H, e, f.src, f.dst) {
          ConnEdge(F, f);
          if Conn(H, f.src, e.src) && Conn(H, e.dst, f.dst) {
            JoinAround(F, H, f.src, f.dst, e.src, e.dst);
          } else {
            JoinAround(F, H, f.dst, f.src, e.src, e.dst);
          }
        }
      }
    }
  }

  lemma JoinAround(F: set<Edge>, H: set<Edge>, a: nat, b: nat, s: nat, d: nat)
    requires H <= F && Conn(F, a, b)
    requires (Conn(H, a, s) && Conn(H, d, b)) || (Conn(H, b, d) && Conn(H, s, a))
    ensures Conn(F, s, d)
  {
    if Conn(H, a, s) && Conn(H, d, b) {
      ConnSym(H, a, s);
      ConnSym(H, d, b);
    }
    ConnMonotone(H, F, s, a);
    ConnMonotone(H, F, b, d);
    ConnTrans(F, s, a, b);
    ConnTrans(F, s, b, d);
  }

  lemma AcyclicRemove(F: set<Edge>, G: set<Edge>)
    requires Acyclic(G) && F <= G
    ensures Acyclic(F)
  {
    forall e | e in F
      ensures !Conn(F - {e}, e.src, e.dst)
    {
      if Conn(F - {e}, e.src, e.dst) {
        ConnMonotone(F - {e}, G - {e}, e.src, e.dst);
      }
    }
  }

  // ------------------------------------------------------------------ counting components

  ghost predicate Least(n: nat, F: set<Edge>, v: nat) {
    v < n && forall u: nat :: u < n && Conn(F, u, v) ==> v <= u
  }

  /** One node per component of the n nodes: its least. */
  ghost function Reps(n: nat, F: set<Edge>): set<nat> {
    set v | v in NodeSet(n) && Least(n, F, v)
  }

  lemma {:induction false} HasRep(n: nat, F: set<Edge>, v: nat) returns (r: nat)
    requires v < n
    ensures r in Reps(n, F) && Conn(F, r, v) && Conn(F, v, r)
    decreases v
  {
    if Least(n, F, v) {
      r := v;
      ConnRefl(F, v);
    } else {
      var u: nat :| u < n && Conn(F, u, v) && u < v;
      r := HasRep(n, F, u);
      ConnSym(F, u, v);
      ConnTrans(F, r, u, v);
      ConnTrans(F, v, u, r);
    }
  }

  lemma RepUnique(n: nat, F: set<Edge>, a: nat, b: nat)
    requires a in Reps(n, F) && b in Reps(n, F) && Conn(F, a, b)
    ensures a == b
  {
    ConnSym(F, a, b);
  }

  /** Joining two components costs exactly one of them. */
  lemma JoinReps(n: nat, F: set<Edge>, e: Edge)
    requires e.src < n && e.dst < n && !Conn(F, e.src, e.dst)
    ensures |Reps(n, F + {e})| == |Reps(n, F)| - 1
  {
    var a := HasRep(n, F, e.src);
    var b := HasRep(n, F, e.dst);
    if a == b {
      ConnTrans(F, e.src, a, e.dst);
    }
    var hi := if a < b then b else a;
    forall v | v in NodeSet(n)
      ensures v in Reps(n, F + {e}) <==> v in Reps(n, F) && v != hi
    {
      JoinRepsAt(n, F, e, a, b, v);
    }
    assert Reps(n, F + {e}) == Reps(n, F) - {hi};
  }

  lemma JoinRepsAt(n: nat, F: set<Edge>, e: Edge, a: nat, b: nat, v: nat)
    requires e.src < n && e.dst < n && a != b && v < n
    requires a in Reps(n, F) && Conn(F, a, e.src) && Conn(F, e.src, a)
    requires b in Reps(n, F) && Conn(F, b, e.dst) && Conn(F, e.dst, b)
    ensures v in Reps(n, F + {e}) <==> v in Reps(n, F) && v != if a < b then b else a
  {
    var G := F + {e};
    ConnAdd(F, e, a, b);
    ConnAdd(F, e, b, a);
    if v in Reps(n, G) {
      forall u: nat | u < n && Conn(F, u, v)
        ensures v <= u
      {
        ConnMonotone(F, G, u, v);
      }
    } else if v in Reps(n, F) {
      var u: nat :| u < n && Conn(G, u, v) && u < v;
      ConnAdd(F, e, u, v);
      if Conn(F, u, e.src) && Conn(F, e.dst, v) {
        ConnTrans(F, b, e.dst, v);
        RepUnique(n, F, b, v);
        ConnTrans(F, u, e.src, a);
      } else {
        assert Conn(F, u, e.dst) && Conn(F, e.src, v);
        ConnTrans(F, a, e.src, v);
        RepUnique(n, F, a, v);
        ConnTrans(F, u, e.dst, b);
      }
    }
  }

  lemma NoEdgesReps(n: nat)
    ensures Reps(n, {}) == NodeSet(n)
  {
    forall u: nat, v: nat | Conn({}, u, v)
      ensures u == v
    {
      assert Links({}) == {};
      ReachStaysInside({}, u, v, {u});
    }
  }

  /** A forest with k edges leaves n - k components. */
  lemma {:induction false} ForestComponents(n: nat, F: set<Edge>)
    requires Acyclic(F) && Within(n, F)
    ensures |Reps(n, F)| == n - |F|
  {
    hide Conn, Reps;
    if F == {} {
      NoEdgesReps(n);
    } else {
      var e :| e in F;
      var G := F - {e};
      AcyclicRemove(G, F);
      ForestComponents(n, G);
      assert G + {e} == F;
      JoinReps(n, G, e);
    }
  }

  /** No forest among edges that F already connects has more edges than F. */
  lemma ForestRank(n: nat, A: set<Edge>, F: set<Edge>)
    requires Within(n, A) && Within(n, F) && Acyclic(A) && Acyclic(F)
    requires forall e :: e in A ==> Conn(F, e.src, e.dst)
    ensures |A| <= |F|
  {
    hide Conn, Acyclic;
    ForestComponents(n, A);
    ForestComponents(n, F);
    forall v | v in Reps(n, F)
      ensures v in Reps(n, A)
    {
      forall u: nat | u < n && Conn(A, u, v)
        ensures v <= u
      {
        ConnGenerated(A, F, u, v);
      }
    }
    SubsetSize(Reps(n, F), Reps(n, A));
  }

  /** n - 1 forest edges connect everything. */
  lemma FullForestConnects(n: nat, F: set<Edge>, u: nat, v: nat)
    requires Within(n, F) && Acyclic(F) && |F| == n - 1 && u < n && v < n
    ensures Conn(F, u, v)
  {
    ForestComponents(n, F);
    var a := HasRep(n, F, u);
    var b := HasRep(n, F, v);
    if a != b {
      assert {a, b} <= Reps(n, F);
      SubsetSize({a, b}, Reps(n, F));
    }
    ConnTrans(F, u, a, v);
  }

  lemma SpanningForestsSameSize(n: nat, S: set<Edge>, F: set<Edge>, T: set<Edge>)
    requires Within(n, S) && SpanningForest(S, F) && SpanningForest(S, T)
    ensures |F| == |T|
  {
    forall e | e in S
      ensures Conn(F, e.src, e.dst) && Conn(T, e.src, e.dst)
    {
      ConnEdge(S, e);
    }
    ForestRank(n, F, T);
    ForestRank(n, T, F);
  }

  // ------------------------------------------------------------------ weights

  ghost function Total(S: set<Edge>): real {
    if S == {} then 0.0 else var e :| e in S; e.weight + Total(S - {e})
  }

  lemma {:induction false} TotalRemove(S: set<Edge>, e: Edge)
    requires e in S
    ensures Total(S) == e.weight + Total(S - {e})
  {
    var x :| x in S && Total(S) == x.weight + Total(S - {x});
    if x != e {
      TotalRemove(S - {x}, e);
      TotalRemove(S - {e}, x);
      assert S - {x} - {e} == S - {e} - {x};
    }
  }

  // ------------------------------------------------------------------ greedy is optimal

  ghost function Prefix(es: seq<Edge>, k: nat): set<Edge>
    requires k <= |es|
  {
    set e | e in es[..k]
  }

  /** Weights as the variant ranks them: the maximum variant is the minimum one on negated weights. */
  function Signed(max: bool, w: real): real {
    if max then -w else w
  }

  ghost predicate Sorted(es: seq<Edge>, max: bool) {
    forall i, j :: 0 <= i < j < |es| ==> Signed(max, es[i].weight) <= Signed(max, es[j].weight)
  }

  /** What the scan keeps: the forest edges of each prefix connect the ends of all its edges. */
  ghost predicate PrefixSpanned(es: seq<Edge>, F: set<Edge>, k: nat)
    requires k <= |es|
  {
    forall e :: e in Prefix(es, k) ==> Conn(F * Prefix(es, k), e.src, e.dst)
  }

  lemma PrefixStep(es: seq<Edge>, k: nat)
    requires k < |es|
    ensures Prefix(es, k + 1) == Prefix(es, k) + {es[k]}
  {
    assert es[..k + 1] == es[..k] + [es[k]];
  }

  /** On every prefix, no forest takes more edges than the greedy one. */
  lemma PrefixDominates(n: nat, es: seq<Edge>, F: set<Edge>, T: set<Edge>, k: nat)
    requires k <= |es| && PrefixSpanned(es, F, k) && Acyclic(F) && Acyclic(T)
    requires Within(n, Prefix(es, |es|))
    ensures |Part(T, es, k)| <= |Part(F, es, k)|
  {
    var P := Prefix(es, k);
    AcyclicRemove(F * P, F);
    AcyclicRemove(T * P, T);
    assert P <= Prefix(es, |es|) by {
      assert es[..|es|] == es;
    }
    ForestRank(n, T * P, F * P);
  }

  ghost function Times(c: int, x: real): real {
    c as real * x
  }

  lemma ScaleBound(c: int, x: real, b: real)
    requires c <= 0 && x <= b
    ensures Times(c, x) >= Times(c, b)
  {
  }

  lemma ScaleStep(c: int, d: int, x: real)
    requires d in {-1, 0, 1}
    ensures Times(c + d, x) == Times(c, x) + (if d == 1 then x else if d == -1 then -x else 0.0)
  {
  }

  ghost function Part(T: set<Edge>, es: seq<Edge>, k: nat): set<Edge>
    requires k <= |es|
  {
    T * Prefix(es, k)
  }

  lemma PartStep(T: set<Edge>, es: seq<Edge>, k: nat)
    requires k < |es|
    ensures es[k] in Prefix(es, k) ==> Part(T, es, k + 1) == Part(T, es, k)
    ensures es[k] !in Prefix(es, k) ==>
              && |Part(T, es, k + 1)| == |Part(T, es, k)| + (if es[k] in T then 1 else 0)
              && Total(Part(T, es, k + 1)) == Total(Part(T, es, k)) + (if es[k] in T then es[k].weight else 0.0)
  {
    PrefixStep(es, k);
    var e, P := es[k], Prefix(es, k);
    assert T * (P + {e}) == T * P + (if e in T then {e} else {});
    assert Part(T, es, k + 1) == Part(T, es, k) + (if e in T then {e} else {});
    hide Part;
    if e !in P {
      assert e !in Part(T, es, k) by { PartInside(T, es, k); }
      AddOne(Part(T, es, k), Part(T, es, k + 1), e, e in T);
    }
  }

  lemma PartZero(T: set<Edge>, es: seq<Edge>, b: real)
    ensures |Part(T, es, 0)| == 0 && Total(Part(T, es, 0)) == 0.0 && Times(0, b) == 0.0
  {
    assert Part(T, es, 0) == {};
  }

  lemma PartInside(T: set<Edge>, es: seq<Edge>, k: nat)
    requires k <= |es|
    ensures Part(T, es, k) <= Prefix(es, k)
  {
  }

  lemma AddOne(A: set<Edge>, B: set<Edge>, e: Edge, more: bool)
    requires e !in A && B == A + (if more then {e} else {})
    ensures |B| == |A| + (if more then 1 else 0)
    ensures Total(B) == Total(A) + (if more then e.weight else 0.0)
  {
    hide Total;
    if more {
      TotalRemove(B, e);
      assert B - {e} == A;
    } else {
      assert B == A;
    }
  }

  /** Summation by parts over the sorted edges. */
  lemma {:induction false} WeightDominates(es: seq<Edge>, max: bool, F: set<Edge>, T: set<Edge>, k: nat, b: real)
    requires Sorted(es, max) && k <= |es|
    requires forall j :: 0 <= j < k ==> Signed(max, es[j].weight) <= b
    requires forall j: nat :: j <= k ==> |Part(T, es, j)| <= |Part(F, es, j)|
    ensures Signed(max, Total(Part(T, es, k)) - Total(Part(F, es, k)))
         >= Times(|Part(T, es, k)| - |Part(F, es, k)|, b)
  {
    hide Total, Part, Prefix, Times;
    if k == 0 {
      PartZero(T, es, b);
      PartZero(F, es, b);
    } else {
      var e, x := es[k - 1], Signed(max, es[k - 1].weight);
      WeightDominates(es, max, F, T, k - 1, x);
      PartStep(T, es, k - 1);
      PartStep(F, es, k - 1);
      var c, c' := |Part(T, es, k - 1)| - |Part(F, es, k - 1)|, |Part(T, es, k)| - |Part(F, es, k)|;
      if e !in Prefix(es, k - 1) {
        var t, f := if e in T then 1 else 0, if e in F then 1 else 0;
        ScaleStep(c, t - f, x);
      }
      ScaleBound(c', x, b);
    }
  }

  /** The greedy forest of the sorted edges is a spanning forest, and none weighs less
      (for the maximum variant: none weighs more). */
  lemma GreedyOptimal(n: nat, es: seq<Edge>, max: bool, F: set<Edge>)
    requires Sorted(es, max) && Within(n, Prefix(es, |es|)) && Acyclic(F) && F <= Prefix(es, |es|)
    requires forall k: nat :: k <= |es| ==> PrefixSpanned(es, F, k)
    ensures SpanningForest(Prefix(es, |es|), F)
    ensures forall T :: SpanningForest(Prefix(es, |es|), T) ==> Signed(max, Total(F)) <= Signed(max, Total(T))
  {
    hide Conn, Acyclic, Total, Sorted, Within, PrefixSpanned;
    GreedySpans(es, F);
    forall T | SpanningForest(Prefix(es, |es|), T)
      ensures Signed(max, Total(F)) <= Signed(max, Total(T))
    {
      GreedyBeats(n, es, max, F, T);
    }
  }

  lemma GreedySpans(es: seq<Edge>, F: set<Edge>)
    requires Acyclic(F) && F <= Prefix(es, |es|) && PrefixSpanned(es, F, |es|)
    ensures SpanningForest(Prefix(es, |es|), F)
  {
    hide Conn, Acyclic, Prefix;
    var S := Prefix(es, |es|);
    assert F * S == F;
    forall u, v
      ensures Conn(F, u, v) <==> Conn(S, u, v)
    {
      if Conn(F, u, v) { ConnMonotone(F, S, u, v); }
      if Conn(S, u, v) { ConnGenerated(S, F, u, v); }
    }
  }

  lemma GreedyBeats(n: nat, es: seq<Edge>, max: bool, F: set<Edge>, T: set<Edge>)
    requires Sorted(es, max) && Within(n, Prefix(es, |es|))
    requires SpanningForest(Prefix(es, |es|), F) && SpanningForest(Prefix(es, |es|), T)
    requires forall k: nat :: k <= |es| ==> PrefixSpanned(es, F, k)
    ensures Signed(max, Total(F)) <= Signed(max, Total(T))
  {
    hide Conn, Acyclic, Total, Prefix, PrefixSpanned;
    var S := Prefix(es, |es|);
    forall k: nat | k <= |es|
      ensures |Part(T, es, k)| <= |Part(F, es, k)|
    {
      PrefixDominates(n, es, F, T, k);
    }
    SpanningForestsSameSize(n, S, F, T);
    assert Part(T, es, |es|) == T && Part(F, es, |es|) == F;
    var b := if es == [] then 0.0 else Signed(max, es[|es| - 1].weight);
    WeightDominates(es, max, F, T, |es|, b);
  }
}
