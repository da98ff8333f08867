/** K-core decomposition by peeling (algo/src/function/k_core_decomposition.cpp). */
module KCore {
  import opened Graphs

  const INVALID_DEGREE: nat := 0xFFFF_FFFF_FFFF_FFFF

  /** Number of slots of a neighbour list that point into S. */
  ghost function CountIn(s: seq<nat>, S: set<nat>): (c: nat)
    ensures c <= |s|
  {
    if s == [] then 0 else CountIn(s[..|s| - 1], S) + (if s[|s| - 1] in S then 1 else 0)
  }

  /** The degree of v inside S: incident slots of both directions, so a self-loop counts twice. */
  ghost function Inner(g: Graph, S: set<nat>, v: nat): nat
    requires g.Valid() && v < g.n
  {
    CountIn(BothWays(g)[v], S)
  }

  /** Every member of S has at least k incident slots inside S. */
  ghost predicate Dense(g: Graph, S: set<nat>, k: nat)
    requires g.Valid()
  {
    forall v :: v in S ==> v < g.n && Inner(g, S, v) >= k
  }

  /** c is the largest k such that v lies in a set dense of degree k. */
  ghost predicate Coreness(g: Graph, v: nat, c: nat)
    requires g.Valid()
  {
    && (exists S: set<nat> :: v in S && Dense(g, S, c))
    && (forall S: set<nat>, k: nat :: v in S && Dense(g, S, k) ==> k <= c)
  }

  // ------------------------------------------------------------------ counting slots

  lemma {:induction false} CountMonotone(s: seq<nat>, S: set<nat>, T: set<nat>)
    requires S <= T
    ensures CountIn(s, S) <= CountIn(s, T)
  {
    if s != [] {
      CountMonotone(s[..|s| - 1], S, T);
    }
  }

  lemma {:induction false} CountAdd(s: seq<nat>, S: set<nat>, b: nat)
    requires b !in S
    ensures CountIn(s, S + {b}) == CountIn(s, S) + multiset(s)[b]
  {
    if s != [] {
      var t := s[..|s| - 1];
      assert s == t + [s[|s| - 1]];
      CountAdd(t, S, b);
    }
  }

  lemma {:induction false} CountSplit(s: seq<nat>, S: set<nat>, B: set<nat>)
    requires S !! B
    ensures CountIn(s, S + B) == CountIn(s, S) + CountIn(s, B)
  {
    if s != [] {
      CountSplit(s[..|s| - 1], S, B);
    }
  }

  lemma {:induction false} CountAll(s: seq<nat>, S: set<nat>)
    requires forall i :: 0 <= i < |s| ==> s[i] in S
    ensures CountIn(s, S) == |s|
  {
    if s != [] {
      CountAll(s[..|s| - 1], S);
    }
  }

  lemma {:induction false} CountNone(s: seq<nat>)
    ensures CountIn(s, {}) == 0
  {
    if s != [] {
      CountNone(s[..|s| - 1]);
    }
  }

  lemma NothingInside(g: Graph)
    requires g.Valid()
    ensures forall v: nat :: v < g.n ==> Inner(g, {}, v) == 0
  {
    forall v: nat | v < g.n
      ensures Inner(g, {}, v) == 0
    {
      CountNone(BothWays(g)[v]);
    }
  }

  /** u is a slot of v as often as v is a slot of u. */
  lemma SlotsSymmetric(g: Graph, u: nat, v: nat)
    requires g.Valid() && u < g.n && v < g.n
    ensures multiset(BothWays(g)[u])[v] == multiset(BothWays(g)[v])[u]
  {
    assert multiset(g.fwd[u] + g.bwd[u])[v] == multiset(g.fwd[u])[v] + multiset(g.bwd[u])[v];
    assert multiset(g.fwd[v] + g.bwd[v])[u] == multiset(g.fwd[v])[u] + multiset(g.bwd[v])[u];
  }

  // ------------------------------------------------------------------ peeling

  /** State of the peeling while values k are being handed out: `left` still lacks a value. */
  ghost predicate Peeling(g: Graph, left: set<nat>, degrees: seq<nat>, cores: seq<nat>, k: nat) {
    && g.Valid() && |degrees| == g.n && |cores| == g.n && left <= NodeSet(g.n)
    && (forall v: nat :: v < g.n ==> (v in left <==> cores[v] == INVALID_DEGREE))
    && (forall v: nat :: v < g.n ==> degrees[v] == Inner(g, left, v))
    && (forall v: nat :: v < g.n && v !in left ==> Coreness(g, v, cores[v]))
    && (forall S: set<nat> :: Dense(g, S, k + 1) ==> S <= left)
  }

  lemma DenseLower(g: Graph, S: set<nat>, k: nat, j: nat)
    requires g.Valid() && Dense(g, S, k) && j <= k
    ensures Dense(g, S, j)
  {
  }

  /** A batch of nodes with at most k slots left, all from a k-dense remainder, gets value k. */
  lemma BatchKeepsPeeling(g: Graph, whole: set<nat>, left: set<nat>, degrees: seq<nat>, cores: seq<nat>, k: nat,
                          batch: set<nat>, degrees': seq<nat>, cores': seq<nat>)
    requires Peeling(g, left, degrees, cores, k) && k < INVALID_DEGREE
    requires left <= whole && Dense(g, whole, k)
    requires batch <= left && forall v: nat :: v in batch ==> degrees[v] <= k
    requires |degrees'| == g.n && |cores'| == g.n
    requires forall v: nat :: v < g.n ==> cores'[v] == if v in batch then k else cores[v]
    requires forall v: nat :: v < g.n ==> degrees'[v] + Inner(g, batch, v) == degrees[v]
    ensures Peeling(g, left - batch, degrees', cores', k)
  {
    var rest := left - batch;
    forall v: nat | v < g.n
      ensures degrees'[v] == Inner(g, rest, v)
    {
      CountSplit(BothWays(g)[v], rest, batch);
      assert rest + batch == left;
    }
    forall S: set<nat> | Dense(g, S, k + 1)
      ensures S <= rest
    {
      BatchOutside(g, left, degrees, cores, k, batch, S);
    }
    forall v: nat | v in batch
      ensures Coreness(g, v, k)
    {
      assert v in whole && Dense(g, whole, k);
      forall S: set<nat>, j: nat | v in S && Dense(g, S, j)
        ensures j <= k
      {
        if j > k {
          DenseLower(g, S, j, k + 1);
          BatchOutside(g, left, degrees, cores, k, batch, S);
        }
      }
    }
  }

  lemma BatchOutside(g: Graph, left: set<nat>, degrees: seq<nat>, cores: seq<nat>, k: nat, batch: set<nat>, S: set<nat>)
    requires Peeling(g, left, degrees, cores, k) && batch <= left && forall v: nat :: v in batch ==> degrees[v] <= k
    requires Dense(g, S, k + 1)
    ensures S <= left && S !! batch
  {
    forall v: nat | v in S
      ensures v !in batch
    {
      CountMonotone(BothWays(g)[v], S, left);
      assert Inner(g, S, v) >= k + 1 && degrees[v] == Inner(g, left, v);
    }
  }

  /** When no node has at most k slots left, the remainder is dense of degree k + 1. */
  lemma StageEnds(g: Graph, left: set<nat>, degrees: seq<nat>, cores: seq<nat>, k: nat)
    requires Peeling(g, left, degrees, cores, k) && forall v :: v in left ==> degrees[v] > k
    ensures Dense(g, left, k + 1) && Peeling(g, left, degrees, cores, k + 1)
  {
    forall S: set<nat> | Dense(g, S, k + 2)
      ensures S <= left
    {
      DenseLower(g, S, k + 2, k + 1);
    }
  }

  lemma PeelingStarts(g: Graph, degrees: seq<nat>, cores: seq<nat>)
    requires g.Valid() && |degrees| == g.n && |cores| == g.n
    requires forall v: nat :: v < g.n ==> cores[v] == INVALID_DEGREE && degrees[v] == |BothWays(g)[v]|
    ensures Peeling(g, NodeSet(g.n), degrees, cores, 0) && Dense(g, NodeSet(g.n), 0)
  {
    forall v: nat | v < g.n
      ensures degrees[v] == Inner(g, NodeSet(g.n), v)
    {
      g.NbrsInRange(v);
      CountAll(BothWays(g)[v], NodeSet(g.n));
    }
  }

  ghost function MaxSlots(g: Graph, n: nat): (m: nat)
    requires g.Valid() && n <= g.n
    ensures forall v: nat :: v < n ==> |BothWays(g)[v]| <= m
  {
    if n == 0 then 0
    else var m := MaxSlots(g, n - 1); if m < |BothWays(g)[n - 1]| then |BothWays(g)[n - 1]| else m
  }

  // ------------------------------------------------------------------ the loops

  /** Finds the nodes without a value whose degree is at most coreValue, gives them that value, and
      collects their slots: each is one decrement of a neighbour's degree. */
  method FindBatch(g: Graph, degrees: array<nat>, cores: array<nat>, coreValue: nat, ghost left: set<nat>)
    returns (numActiveNodes: nat, slots: seq<nat>, ghost batch: set<nat>)
    requires Peeling(g, left, degrees[..], cores[..], coreValue) && cores != degrees && coreValue < INVALID_DEGREE
    modifies cores
    ensures batch <= left && numActiveNodes == |batch|
    ensures forall v :: v in left ==> (v in batch <==> degrees[v] <= coreValue)
    ensures forall v: nat :: v < g.n ==> cores[v] == if v in batch then coreValue else old(cores[v])
    ensures forall v: nat :: v < g.n ==> multiset(slots)[v] == Inner(g, batch, v)
    ensures forall i :: 0 <= i < |slots| ==> slots[i] < g.n
  {
    hide Peeling, Inner, BothWays, Graph.Valid;
    PeelingShape(g, left, degrees[..], cores[..], coreValue);
    numActiveNodes, slots, batch := 0, [], {};
    NothingInside(g);
    for i := 0 to g.n
      invariant batch <= left && numActiveNodes == |batch|
      invariant forall v: nat :: v in batch ==> v < i
      invariant forall v: nat :: v < i && v in left ==> (v in batch <==> degrees[v] <= coreValue)
      invariant forall v: nat :: v < g.n ==> cores[v] == if v in batch then coreValue else old(cores[v])
      invariant forall v: nat :: v < g.n ==> multiset(slots)[v] == Inner(g, batch, v)
      invariant forall i :: 0 <= i < |slots| ==> slots[i] < g.n
    {
      if cores[i] == INVALID_DEGREE {
        if degrees[i] <= coreValue {
          cores[i] := coreValue;
          numActiveNodes := numActiveNodes + 1;
          AddToBatch(g, batch, i, slots);
          SlotsInRange(g, i);
          slots := slots + BothWays(g)[i];
          batch := batch + {i};
        }
      }
    }
  }

  lemma PeelingShape(g: Graph, left: set<nat>, degrees: seq<nat>, cores: seq<nat>, k: nat)
    requires Peeling(g, left, degrees, cores, k)
    ensures g.Valid() && |g.fwd| == g.n && |g.bwd| == g.n && |degrees| == g.n && |cores| == g.n
    ensures forall v: nat :: v in left ==> v < g.n
    ensures forall v: nat :: v < g.n ==> (v in left <==> cores[v] == INVALID_DEGREE)
  {
  }

  lemma AddToBatch(g: Graph, batch: set<nat>, b: nat, slots: seq<nat>)
    requires g.Valid() && b < g.n && b !in batch
    requires forall v: nat :: v < g.n ==> multiset(slots)[v] == Inner(g, batch, v)
    ensures forall v: nat :: v < g.n ==> multiset(slots + BothWays(g)[b])[v] == Inner(g, batch + {b}, v)
  {
    forall v: nat | v < g.n
      ensures multiset(slots + BothWays(g)[b])[v] == Inner(g, batch + {b}, v)
    {
      CountAdd(BothWays(g)[v], batch, b);
      SlotsSymmetric(g, b, v);
    }
  }

  lemma SlotsInRange(g: Graph, v: nat)
    requires g.Valid() && v < g.n
    ensures forall i :: 0 <= i < |BothWays(g)[v]| ==> BothWays(g)[v][i] < g.n
  {
    g.NbrsInRange(v);
  }

  /** Applies the collected decrements one by one, in any order. A counter never reaches below zero. */
  method RemoveVertices(degrees: array<nat>, slots: seq<nat>)
    requires forall i :: 0 <= i < |slots| ==> slots[i] < degrees.Length
    requires forall v: nat :: v < degrees.Length ==> multiset(slots)[v] <= degrees[v]
    modifies degrees
    ensures forall v: nat :: v < degrees.Length ==> degrees[v] + multiset(slots)[v] == old(degrees[v])
  {
    var pending: seq<nat> := slots;
    while pending != []
      invariant forall i :: 0 <= i < |pending| ==> pending[i] < degrees.Length
      invariant forall v: nat :: v < degrees.Length ==>
                  degrees[v] + multiset(slots)[v] == old(degrees[v]) + multiset(pending)[v]
      decreases |pending|
    {
      var k :| 0 <= k < |pending|;
      var w := pending[k];
      assert pending == pending[..k] + [w] + pending[k + 1..];
      degrees[w] := degrees[w] - 1;
      pending := pending[..k] + pending[k + 1..];
    }
  }

  lemma BatchFitsDegrees(g: Graph, left: set<nat>, degrees: seq<nat>, cores: seq<nat>, k: nat, batch: set<nat>)
    requires Peeling(g, left, degrees, cores, k) && batch <= left
    ensures forall v: nat :: v < g.n ==> Inner(g, batch, v) <= degrees[v]
  {
    forall v: nat | v < g.n
      ensures Inner(g, batch, v) <= degrees[v]
    {
      CountMonotone(BothWays(g)[v], batch, left);
    }
  }

  lemma DenseBound(g: Graph, left: set<nat>, k: nat)
    requires g.Valid() && Dense(g, left, k) && left != {}
    requires forall v: nat :: v < g.n ==> |BothWays(g)[v]| < INVALID_DEGREE
    ensures k <= MaxSlots(g, g.n) && k < INVALID_DEGREE
  {
    var v :| v in left;
    assert Inner(g, left, v) <= |BothWays(g)[v]|;
  }

  /** The inner loop: removes batches until every remaining node has more than coreValue slots left. */
  method PeelStage(g: Graph, degrees: array<nat>, cores: array<nat>, coreValue: nat, ghost whole: set<nat>)
    returns (computed: nat, ghost left: set<nat>)
    requires Peeling(g, whole, degrees[..], cores[..], coreValue) && Dense(g, whole, coreValue)
    requires cores != degrees && coreValue < INVALID_DEGREE
    modifies degrees, cores
    ensures Peeling(g, left, degrees[..], cores[..], coreValue) && left <= whole
    ensures computed + |left| == |whole| && forall v :: v in left ==> degrees[v] > coreValue
  {
    hide Peeling, Dense, Coreness;
    computed, left := 0, whole;
    while true
      invariant Peeling(g, left, degrees[..], cores[..], coreValue) && left <= whole
      invariant computed + |left| == |whole|
      decreases left
    {
      ghost var degrees0, cores0 := degrees[..], cores[..];
      PeelingShape(g, left, degrees0, cores0, coreValue);
      var numActiveNodes, slots, batch := FindBatch(g, degrees, cores, coreValue, left);
      computed := computed + numActiveNodes;
      if numActiveNodes == 0 {
        assert batch == {};
        assert cores[..] == cores0;
        return;
      }
      BatchFitsDegrees(g, left, degrees0, cores0, coreValue, batch);
      RemoveVertices(degrees, slots);
      BatchKeepsPeeling(g, whole, left, degrees0, cores0, coreValue, batch, degrees[..], cores[..]);
      assert left - batch + batch == left;
      left := left - batch;
    }
  }

  /** The table function: each node ends with its coreness. The node counter is 32 bits wide. */
  method KCoreDecomposition(g: Graph) returns (result: seq<nat>)
    requires g.Valid() && g.n < 0x1_0000_0000
    requires forall v: nat :: v < g.n ==> |BothWays(g)[v]| < INVALID_DEGREE
    ensures |result| == g.n
    ensures forall v: nat :: v < g.n ==> Coreness(g, v, result[v])
  {
    g.Sizes();
    var degrees := new nat[g.n](v requires 0 <= v < g.n => |g.fwd[v]| + |g.bwd[v]|);
    var cores := new nat[g.n](_ => INVALID_DEGREE);
    ghost var left := NodeSet(g.n);
    PeelingStarts(g, degrees[..], cores[..]);
    hide Peeling, Dense, Coreness, Graph.Valid;
    var coreValue, numNodesComputed := 0, 0;
    while g.n != numNodesComputed
      invariant Peeling(g, left, degrees[..], cores[..], coreValue) && Dense(g, left, coreValue)
      invariant numNodesComputed + |left| == g.n
      decreases MaxSlots(g, g.n) + 1 - coreValue
    {
      DenseBound(g, left, coreValue);
      var computed;
      computed, left := PeelStage(g, degrees, cores, coreValue, left);
      numNodesComputed := numNodesComputed + computed;
      StageEnds(g, left, degrees[..], cores[..], coreValue);
      coreValue := coreValue + 1;
    }
    result := cores[..];
    assert left == {};
    PeelingEnds(g, degrees[..], result, coreValue);
  }

  lemma PeelingEnds(g: Graph, degrees: seq<nat>, cores: seq<nat>, k: nat)
    requires Peeling(g, {}, degrees, cores, k)
    ensures |cores| == g.n && forall v: nat :: v < g.n ==> Coreness(g, v, cores[v])
  {
  }

  /** Coreness is a property of the graph alone, so no order of removal can change the result. */
  lemma CorenessUnique(g: Graph, v: nat, c: nat, d: nat)
    requires g.Valid() && Coreness(g, v, c) && Coreness(g, v, d)
    ensures c == d
  {
  }
}
