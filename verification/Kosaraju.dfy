/** Kosaraju's strongly connected components with explicit stacks
    (algo/src/function/strongly_connected_components_kosaraju.cpp). */
module KosarajuSCC {
  import opened Basics
  import opened Reachability
  import opened Graphs

  // The three largest 64-bit offsets mark the traversal state of a node.
  const PROCESSED: nat := 0xFFFF_FFFF_FFFF_FFFF
  const VISITED: nat := PROCESSED - 1
  const NOT_VISITED: nat := PROCESSED - 2

  // Node loops count in 32 bits: on more nodes the source never leaves them.
  const MAX_NODES: nat := 0x1_0000_0000

  // ------------------------------------------------------------------ specification of the order

  /** The finish order of a depth-first search, as Kosaraju's argument needs it: whenever an earlier
      node reaches a later one, something in the earlier node's component comes no sooner than it. */
  ghost predicate FinishOrder(g: Graph, order: seq<nat>)
    requires g.Valid()
  {
    forall i, j :: 0 <= i < j < |order| && Reach(g.E(), order[i], order[j]) ==>
      LaterTwin(g, order, i, j)
  }

  ghost predicate LaterTwin(g: Graph, order: seq<nat>, i: nat, j: nat)
    requires g.Valid() && i < j < |order|
  {
    exists z: nat :: z < g.n && z !in order[..j] && Mutual(g.E(), order[i], z)
  }

  // ------------------------------------------------------------------ forward search

  /** Colours: `path` holds the visited, unprocessed nodes in discovery order, `order` the processed ones. */
  ghost predicate Colours(g: Graph, ids: seq<nat>, order: seq<nat>, path: seq<nat>) {
    && |ids| == g.n && NoRepeats(order) && NoRepeats(path)
    && (forall v :: 0 <= v < g.n ==> ids[v] == NOT_VISITED || ids[v] == VISITED || ids[v] == PROCESSED)
    && (forall i :: 0 <= i < |order| ==> order[i] < g.n && ids[order[i]] == PROCESSED)
    && (forall v: nat :: v < g.n && ids[v] == PROCESSED ==> v in order)
    && (forall i :: 0 <= i < |path| ==> path[i] < g.n && ids[path[i]] == VISITED)
    && (forall v: nat :: v < g.n && ids[v] == VISITED ==> v in path)
  }

  ghost predicate HasGreyTwin(g: Graph, path: seq<nat>, x: nat)
    requires g.Valid()
  {
    exists z :: z in path && Mutual(g.E(), x, z)
  }

  ghost predicate Search(g: Graph, ids: seq<nat>, order: seq<nat>, path: seq<nat>) {
    && g.Valid() && Colours(g, ids, order, path)
    && (forall i, j :: 0 <= i < j < |path| ==> Reach(g.E(), path[i], path[j]))
    && (forall e :: e in g.E() && e.0 in order ==> ids[e.1] != NOT_VISITED)
    && (forall x, y :: x in order && y !in order && Reach(g.E(), x, y) ==> HasGreyTwin(g, path, x))
    && FinishOrder(g, order)
  }

  /** The stack: path[k] sits at position at[k] and nowhere above it. */
  ghost predicate Placed(path: seq<nat>, stack: seq<nat>, at: seq<nat>) {
    && |at| == |path|
    && (path == [] ==> |stack| <= 1)
    && (path != [] ==> at[0] == 0)
    && (forall k :: 0 <= k < |at| ==> at[k] < |stack| && stack[at[k]] == path[k])
    && (forall k, l :: 0 <= k < l < |at| ==> at[k] < at[l])
    && (forall k, p :: 0 <= k < |at| && at[k] < p < |stack| ==> stack[p] != path[k])
  }

  /** What lies above path[k], up to the next grey node, are its neighbours. */
  ghost predicate Segments(E: Edges, path: seq<nat>, stack: seq<nat>, at: seq<nat>)
    requires Placed(path, stack, at)
  {
    forall k, p {:trigger path[k], stack[p]} ::
      0 <= k < |at| && at[k] < p < |stack| && (k + 1 < |at| ==> p <= at[k + 1]) ==> (path[k], stack[p]) in E
  }

  /** Every unvisited neighbour of a grey node is still waiting above it. */
  ghost predicate Pending(E: Edges, ids: seq<nat>, path: seq<nat>, stack: seq<nat>, at: seq<nat>)
    requires Placed(path, stack, at)
  {
    forall k: nat, w: nat :: k < |at| && w < |ids| && ids[w] == NOT_VISITED && (path[k], w) in E ==>
      OnStackAbove(stack, at[k], w)
  }

  ghost predicate Stack(E: Edges, ids: seq<nat>, path: seq<nat>, stack: seq<nat>, at: seq<nat>) {
    && (forall p :: 0 <= p < |stack| ==> stack[p] < |ids|)
    && (path == [] && stack != [] ==> ids[stack[0]] == NOT_VISITED)
    && (forall i :: 0 <= i < |path| ==> path[i] < |ids| && ids[path[i]] == VISITED)
    && Placed(path, stack, at) && Segments(E, path, stack, at) && Pending(E, ids, path, stack, at)
  }

  ghost predicate OnStackAbove(stack: seq<nat>, a: nat, w: nat) {
    exists p :: a < p < |stack| && stack[p] == w
  }

  lemma VisitKeepsSearch(g: Graph, ids: seq<nat>, order: seq<nat>, path: seq<nat>, u: nat)
    requires Search(g, ids, order, path)
    requires u < g.n && ids[u] == NOT_VISITED
    requires path != [] ==> (path[|path| - 1], u) in g.E()
    ensures Search(g, ids[u := VISITED], order, path + [u])
  {
    var ids', path' := ids[u := VISITED], path + [u];
    assert u !in path;
    forall i, j | 0 <= i < j < |path'|
      ensures Reach(g.E(), path'[i], path'[j])
    {
      if j == |path| {
        ReachEdge(g.E(), path[|path| - 1], u);
        if i < |path| - 1 {
          ReachTrans(g.E(), path[i], path[|path| - 1], u);
        }
      }
    }
    forall x, y | x in order && y !in order && Reach(g.E(), x, y)
      ensures HasGreyTwin(g, path', x)
    {
      var z :| z in path && Mutual(g.E(), x, z);
      assert z in path';
    }
  }

  /** The last grey node finishes once none of its neighbours is unvisited. */
  lemma FinishKeepsSearch(g: Graph, ids: seq<nat>, order: seq<nat>, path: seq<nat>, u: nat)
    requires Search(g, ids, order, path + [u]) && u < |ids|
    requires forall w :: (u, w) in g.E() ==> ids[w] != NOT_VISITED
    ensures Search(g, ids[u := PROCESSED], order + [u], path)
  {
    var E := g.E();
    var ids', order', grey := ids[u := PROCESSED], order + [u], path + [u];
    FinishKeepsColours(g, ids, order, path, u);
    forall i, j | 0 <= i < j < |path|
      ensures Reach(E, path[i], path[j])
    {
      assert grey[i] == path[i] && grey[j] == path[j];
    }
    forall x, y | x in order' && y !in order' && Reach(E, x, y)
      ensures HasGreyTwin(g, path, x)
    {
      GreyTwinSurvives(g, ids, order, path, u, x, y);
    }
    forall i, j | 0 <= i < j < |order'| && Reach(E, order'[i], order'[j])
      ensures LaterTwin(g, order', i, j)
    {
      assert order'[i] == order[i];
      if j == |order| {
        assert order'[..j] == order;
        assert HasGreyTwin(g, grey, order[i]);
        var z :| z in grey && Mutual(E, order[i], z);
        assert z !in order'[..j];
      } else {
        assert LaterTwin(g, order, i, j);
        assert order'[..j] == order[..j];
      }
    }
  }

  lemma FinishKeepsColours(g: Graph, ids: seq<nat>, order: seq<nat>, path: seq<nat>, u: nat)
    requires Colours(g, ids, order, path + [u]) && u < |ids|
    ensures u !in path && u !in order
    ensures Colours(g, ids[u := PROCESSED], order + [u], path)
  {
    var grey := path + [u];
    assert grey[|path|] == u && ids[u] == VISITED;
    forall i | 0 <= i < |path|
      ensures path[i] != u
    {
      assert grey[i] != grey[|path|];
    }
    forall v: nat | v < g.n && ids[u := PROCESSED][v] == VISITED
      ensures v in path
    {
      assert v in grey;
    }
    var ids', order' := ids[u := PROCESSED], order + [u];
    forall i, j | 0 <= i < j < |path|
      ensures path[i] != path[j]
    {
      assert grey[i] != grey[j];
    }
    assert forall i :: 0 <= i < |path| ==> path[i] == grey[i];
    forall v: nat | v < g.n && ids'[v] == PROCESSED
      ensures v in order'
    {
      assert v != u ==> v in order;
      assert order'[|order|] == u;
    }
  }

  lemma GreyTwinSurvives(g: Graph, ids: seq<nat>, order: seq<nat>, path: seq<nat>, u: nat, x: nat, y: nat)
    requires Search(g, ids, order, path + [u]) && u < |ids|
    requires forall w :: (u, w) in g.E() ==> ids[w] != NOT_VISITED
    requires x in order + [u] && y !in order + [u] && Reach(g.E(), x, y)
    ensures HasGreyTwin(g, path, x)
  {
    var E, grey := g.E(), path + [u];
    assert grey[|path|] == u && u in grey;
    var z := u;
    if x in order {
      assert y !in order;
      z :| z in grey && Mutual(E, x, z);
    } else {
      ReachRefl(E, u);
    }
    if z in path {
    } else {
      assert z == u;
      // u still reaches y, and the first unfinished node on that way is grey and reaches u.
      ReachTrans(E, u, x, y);
      var done := set v | v in order + [u];
      var a, b := ReachLeaves(E, u, y, done);
      g.EdgeIsForward(a, b);
      ReachEdge(E, a, b);
      ReachTrans(E, u, a, b);
      assert b in grey;
      var k :| 0 <= k < |grey| && grey[k] == b;
      assert k < |path| && path[k] == b;
      assert Reach(E, grey[k], grey[|path|]);
      MutualTrans(E, x, u, b);
    }
  }

  // ------------------------------------------------------------------ stack steps

  /** What the scan of u has pushed: its unvisited neighbours other than u. */
  ghost predicate Scanned(E: Edges, ids: seq<nat>, u: nat, pushed: seq<nat>) {
    && (forall p :: 0 <= p < |pushed| ==>
          (u, pushed[p]) in E && pushed[p] < |ids| && pushed[p] != u && ids[pushed[p]] == NOT_VISITED)
    && (forall w: nat :: (u, w) in E && w < |ids| && w != u && ids[w] == NOT_VISITED ==> w in pushed)
  }

  /** Visiting the unvisited top u and pushing what its scan finds. */
  lemma VisitKeepsStack(E: Edges, ids: seq<nat>, path: seq<nat>, stack: seq<nat>, u: nat, at: seq<nat>,
                        pushed: seq<nat>)
    requires Stack(E, ids, path, stack + [u], at) && u < |ids| && ids[u] == NOT_VISITED && Scanned(E, ids, u, pushed)
    ensures Stack(E, ids[u := VISITED], path + [u], stack + [u] + pushed, at + [|stack|])
    ensures path != [] ==> (path[|path| - 1], u) in E
  {
    var ids', path', stack', at' := ids[u := VISITED], path + [u], stack + [u] + pushed, at + [|stack|];
    VisitKeepsPlaced(ids, path, stack, u, at, pushed);
    VisitKeepsSegments(E, ids, path, stack, u, at, pushed);
    VisitKeepsPending(E, ids, path, stack, u, at, pushed);
    assert forall p :: 0 <= p < |stack| ==> stack'[p] == (stack + [u])[p];
    if path != [] {
      var full, k := stack + [u], |path| - 1;
      assert full[at[k]] == path[k] && ids[path[k]] == VISITED;
      assert full[|stack|] == u;
      assert at[k] < |stack| < |full|;
      assert (path[k], full[|stack|]) in E;
    }
  }

  lemma VisitKeepsSegments(E: Edges, ids: seq<nat>, path: seq<nat>, stack: seq<nat>, u: nat, at: seq<nat>, pushed: seq<nat>)
    requires Placed(path, stack + [u], at) && Segments(E, path, stack + [u], at) && Scanned(E, ids, u, pushed)
    requires Placed(path + [u], stack + [u] + pushed, at + [|stack|])
    ensures Segments(E, path + [u], stack + [u] + pushed, at + [|stack|])
  {
    var path', stack', at' := path + [u], stack + [u] + pushed, at + [|stack|];
    forall k, p | 0 <= k < |at'| && at'[k] < p < |stack'| && (k + 1 < |at'| ==> p <= at'[k + 1])
      ensures (path'[k], stack'[p]) in E
    {
      if k < |at| {
        assert p <= |stack|;
        assert stack'[p] == (stack + [u])[p];
        assert (path[k], (stack + [u])[p]) in E;
      } else {
        assert stack'[p] == pushed[p - |stack| - 1];
      }
    }
  }

  lemma VisitKeepsPending(E: Edges, ids: seq<nat>, path: seq<nat>, stack: seq<nat>, u: nat, at: seq<nat>, pushed: seq<nat>)
    requires Placed(path, stack + [u], at) && Pending(E, ids, path, stack + [u], at) && u < |ids| && Scanned(E, ids, u, pushed)
    requires Placed(path + [u], stack + [u] + pushed, at + [|stack|])
    ensures Pending(E, ids[u := VISITED], path + [u], stack + [u] + pushed, at + [|stack|])
  {
    var ids', path', stack', at' := ids[u := VISITED], path + [u], stack + [u] + pushed, at + [|stack|];
    forall k: nat, w: nat | k < |at'| && w < |ids'| && ids'[w] == NOT_VISITED && (path'[k], w) in E
      ensures OnStackAbove(stack', at'[k], w)
    {
      if k < |at| {
        assert OnStackAbove(stack + [u], at[k], w);
        var p :| at[k] < p < |stack + [u]| && (stack + [u])[p] == w;
        assert stack'[p] == w;
      } else {
        var q :| 0 <= q < |pushed| && pushed[q] == w;
        assert stack'[|stack| + 1 + q] == w;
      }
    }
  }

  lemma VisitKeepsPlaced(ids: seq<nat>, path: seq<nat>, stack: seq<nat>, u: nat, at: seq<nat>, pushed: seq<nat>)
    requires Placed(path, stack + [u], at) && u < |ids| && ids[u] == NOT_VISITED
    requires forall i :: 0 <= i < |path| ==> path[i] < |ids| && ids[path[i]] == VISITED
    requires forall p :: 0 <= p < |pushed| ==> pushed[p] < |ids| && pushed[p] != u && ids[pushed[p]] == NOT_VISITED
    ensures Placed(path + [u], stack + [u] + pushed, at + [|stack|])
  {
    var path', stack', at' := path + [u], stack + [u] + pushed, at + [|stack|];
    forall k | 0 <= k < |at|
      ensures at[k] < |stack|
    {
      assert (stack + [u])[at[k]] == path[k];
    }
    forall k, p | 0 <= k < |at'| && at'[k] < p < |stack'|
      ensures stack'[p] != path'[k]
    {
      if k < |at| {
        if p <= |stack| { assert stack'[p] == (stack + [u])[p]; } else { assert stack'[p] == pushed[p - |stack| - 1]; }
      }
    }
  }

  /** Popping the position of the last grey node: nothing it points to is unvisited. */
  lemma GreyTopIsDone(E: Edges, ids: seq<nat>, path: seq<nat>, u: nat, stack: seq<nat>, at: seq<nat>)
    requires Stack(E, ids, path + [u], stack + [u], at) && at[|path|] == |stack|
    ensures forall w: nat :: (u, w) in E && w < |ids| ==> ids[w] != NOT_VISITED
  {
    assert (path + [u])[|path|] == u;
  }

  lemma PopGreyKeepsStack(E: Edges, ids: seq<nat>, path: seq<nat>, u: nat, stack: seq<nat>, at: seq<nat>)
    requires Stack(E, ids, path + [u], stack + [u], at) && NoRepeats(path + [u])
    requires u < |ids| && at[|path|] == |stack|
    ensures Stack(E, ids[u := PROCESSED], path, stack, at[..|path|])
  {
    var grey, full, at' := path + [u], stack + [u], at[..|path|];
    assert forall p :: 0 <= p < |stack| ==> full[p] == stack[p];
    assert grey[|path|] == u;
    PopGreyKeepsPlaced(path, u, stack, at);
    PopGreyKeepsSegments(E, path, u, stack, at);
    hide Placed, Segments;
    assert Pending(E, ids[u := PROCESSED], path, stack, at') by {
      forall k: nat, w: nat | k < |at'| && w < |ids| && ids[u := PROCESSED][w] == NOT_VISITED && (path[k], w) in E
        ensures OnStackAbove(stack, at'[k], w)
      {
        PendingSurvives(E, ids, grey, stack, u, at, k, w);
      }
    }
    forall i | 0 <= i < |path|
      ensures path[i] < |ids| && ids[u := PROCESSED][path[i]] == VISITED
    {
      assert grey[i] != grey[|path|] && grey[i] == path[i];
    }
  }

  lemma PopGreyKeepsSegments(E: Edges, path: seq<nat>, u: nat, stack: seq<nat>, at: seq<nat>)
    requires Placed(path + [u], stack + [u], at) && at[|path|] == |stack| && Placed(path, stack, at[..|path|])
    requires Segments(E, path + [u], stack + [u], at)
    ensures Segments(E, path, stack, at[..|path|])
  {
    var grey, full, at' := path + [u], stack + [u], at[..|path|];
    forall k, p | 0 <= k < |at'| && at'[k] < p < |stack| && (k + 1 < |at'| ==> p <= at'[k + 1])
      ensures (path[k], stack[p]) in E
    {
      assert (grey[k], full[p]) in E;
    }
  }

  lemma PopGreyKeepsPlaced(path: seq<nat>, u: nat, stack: seq<nat>, at: seq<nat>)
    requires Placed(path + [u], stack + [u], at) && at[|path|] == |stack|
    ensures Placed(path, stack, at[..|path|])
  {
    var grey, full, at' := path + [u], stack + [u], at[..|path|];
    forall k | 0 <= k < |at'|
      ensures at'[k] < |stack| && stack[at'[k]] == path[k]
    {
      assert at[k] < at[|path|];
      assert full[at[k]] == grey[k];
    }
    forall k, p | 0 <= k < |at'| && at'[k] < p < |stack|
      ensures stack[p] != path[k]
    {
      assert full[p] != grey[k];
    }
  }

  lemma PendingSurvives(E: Edges, ids: seq<nat>, path: seq<nat>, stack: seq<nat>, u: nat, at: seq<nat>, k: nat, w: nat)
    requires Stack(E, ids, path, stack + [u], at)
    requires u < |ids| && ids[u] != NOT_VISITED
    requires k < |at| && w < |ids| && ids[w] == NOT_VISITED && (path[k], w) in E
    ensures OnStackAbove(stack, at[k], w)
  {
    assert OnStackAbove(stack + [u], at[k], w);
    var p :| at[k] < p < |stack + [u]| && (stack + [u])[p] == w;
    assert stack[p] == w;
  }

  /** Popping a visited entry above the last grey node: it is not grey, hence already processed. */
  lemma PopSpareKeepsStack(E: Edges, ids: seq<nat>, path: seq<nat>, u: nat, stack: seq<nat>, at: seq<nat>)
    requires Stack(E, ids, path, stack + [u], at)
    requires u < |ids| && ids[u] != NOT_VISITED && path != [] && at[|path| - 1] != |stack|
    ensures u !in path && Stack(E, ids, path, stack, at)
  {
    var full := stack + [u];
    assert forall p :: 0 <= p < |stack| ==> full[p] == stack[p];
    forall k | 0 <= k < |at|
      ensures at[k] < |stack| && path[k] != u && stack[at[k]] == path[k]
    {
      assert k < |at| - 1 ==> at[k] < at[|at| - 1];
      assert full[|stack|] == u;
    }
    forall k: nat, w: nat | k < |at| && w < |ids| && ids[w] == NOT_VISITED && (path[k], w) in E
      ensures OnStackAbove(stack, at[k], w)
    {
      PendingSurvives(E, ids, path, stack, u, at, k, w);
    }
    assert Placed(path, stack, at) by {
      forall k, p | 0 <= k < |at| && at[k] < p < |stack|
        ensures stack[p] != path[k]
      {
        assert full[p] != path[k];
      }
    }
    forall k, p | 0 <= k < |at| && at[k] < p < |stack| && (k + 1 < |at| ==> p <= at[k + 1])
      ensures (path[k], stack[p]) in E
    {
      assert (path[k], full[p]) in E;
    }
  }

  // ------------------------------------------------------------------ one turn of the forward loop

  lemma TopFacts(g: Graph, ids: seq<nat>, order: seq<nat>, path: seq<nat>, stack: seq<nat>, at: seq<nat>)
    requires Search(g, ids, order, path) && Stack(g.E(), ids, path, stack, at) && stack != []
    ensures |at| == |path| && |ids| == g.n
    ensures var u := stack[|stack| - 1];
            u < |ids| && (ids[u] < VISITED <==> ids[u] == NOT_VISITED) && (ids[u] != NOT_VISITED ==> path != [])
  {
  }

  lemma StackStarts(E: Edges, ids: seq<nat>, root: nat)
    requires root < |ids| && ids[root] == NOT_VISITED
    ensures Stack(E, ids, [], [root], [])
  {
  }

  /** An emptied stack leaves no grey node. */
  lemma StackEnds(g: Graph, ids: seq<nat>, order: seq<nat>, path: seq<nat>, at: seq<nat>)
    requires Search(g, ids, order, path) && Stack(g.E(), ids, path, [], at)
    ensures path == [] && forall v :: 0 <= v < g.n ==> ids[v] == NOT_VISITED || ids[v] == PROCESSED
  {
  }

  lemma PopStep(g: Graph, ids: seq<nat>, order: seq<nat>, path: seq<nat>, stack: seq<nat>, u: nat, at: seq<nat>)
    requires Search(g, ids, order, path) && Stack(g.E(), ids, path, stack + [u], at)
    requires u < |ids| && ids[u] != NOT_VISITED
    ensures ids[u] == PROCESSED ==> Stack(g.E(), ids, path, stack, at)
    ensures ids[u] != PROCESSED ==>
              && path != [] && |order| < g.n
              && Search(g, ids[u := PROCESSED], order + [u], path[..|path| - 1])
              && Stack(g.E(), ids[u := PROCESSED], path[..|path| - 1], stack, at[..|path| - 1])
  {
    hide Search, Stack, Graph.Valid, Graph.E;
    GreyFacts(g, ids, order, path);
    TopFacts(g, ids, order, path, stack + [u], at);
    var last := |path| - 1;
    if at[last] != |stack| {
      PopSpareKeepsStack(g.E(), ids, path, u, stack, at);
      GreyOnPath(g, ids, order, path, u);
    } else {
      var grey := path[..last];
      GreyTop(g.E(), ids, path, stack, u, at);
      GreyTopIsDone(g.E(), ids, grey, u, stack, at);
      PopGreyKeepsStack(g.E(), ids, grey, u, stack, at);
      FinishKeepsSearch(g, ids, order, grey, u);
      FinishFits(g, ids[u := PROCESSED], order + [u], grey);
    }
  }

  lemma GreyOnPath(g: Graph, ids: seq<nat>, order: seq<nat>, path: seq<nat>, u: nat)
    requires Search(g, ids, order, path) && u < |ids| && ids[u] != NOT_VISITED && u !in path
    ensures ids[u] == PROCESSED
  {
  }

  lemma GreyTop(E: Edges, ids: seq<nat>, path: seq<nat>, stack: seq<nat>, u: nat, at: seq<nat>)
    requires Stack(E, ids, path, stack + [u], at)
    requires path != [] && at[|path| - 1] == |stack| && u < |ids|
    ensures path == path[..|path| - 1] + [u] && ids[u] == VISITED
  {
    hide Segments, Pending;
    assert (stack + [u])[at[|path| - 1]] == u;
  }

  lemma GreyFacts(g: Graph, ids: seq<nat>, order: seq<nat>, path: seq<nat>)
    requires Search(g, ids, order, path)
    ensures NoRepeats(path) && g.Valid() && |ids| == g.n
    ensures forall e :: e in g.E() ==> e.1 < |ids|
  {
    hide FinishOrder;
  }

  lemma FinishFits(g: Graph, ids: seq<nat>, order: seq<nat>, path: seq<nat>)
    requires Search(g, ids, order, path)
    ensures |order| <= g.n
  {
    DistinctFit(order, g.n);
  }

  lemma VisitStep(g: Graph, ids: seq<nat>, order: seq<nat>, path: seq<nat>, stack: seq<nat>, u: nat, at: seq<nat>,
                  pushed: seq<nat>)
    requires Search(g, ids, order, path) && Stack(g.E(), ids, path, stack + [u], at)
    requires u < |ids| && ids[u] == NOT_VISITED
    requires forall p :: 0 <= p < |pushed| ==>
               pushed[p] in g.fwd[u] && pushed[p] < |ids| && ids[u := VISITED][pushed[p]] < VISITED
    requires forall w :: w in g.fwd[u] && w < |ids| && ids[u := VISITED][w] < VISITED ==> w in pushed
    ensures Search(g, ids[u := VISITED], order, path + [u])
    ensures Stack(g.E(), ids[u := VISITED], path + [u], stack + [u] + pushed, at + [|stack|])
  {
    assert Scanned(g.E(), ids, u, pushed) by {
      forall w: nat
        ensures (u, w) in g.E() <==> w < g.n && w in g.fwd[u]
      {
        g.EdgeIsForward(u, w);
      }
    }
    VisitKeepsStack(g.E(), ids, path, stack, u, at, pushed);
    VisitKeepsSearch(g, ids, order, path, u);
  }

  // ------------------------------------------------------------------ backward search

  predicate Assigned(ids: seq<nat>, v: nat)
    requires v < |ids|
  {
    ids[v] < NOT_VISITED
  }

  /** Whole components carry one id, the offset of a member; everything else is still unassigned. */
  ghost predicate WholeComponents(g: Graph, ids: seq<nat>) {
    && g.Valid() && |ids| == g.n
    && (forall v :: 0 <= v < g.n && Assigned(ids, v) ==> Mutual(g.E(), v, ids[v]))
    && (forall v, w :: 0 <= v < g.n && 0 <= w < g.n && Assigned(ids, v) && Mutual(g.E(), v, w) ==> ids[w] == ids[v])
  }

  /** When the not yet popped prefix of the order covers the unassigned nodes, every unassigned node
      that reaches the popped one shares its component. */
  lemma OnlyTwinsReachRoot(g: Graph, ids: seq<nat>, order: seq<nat>, j: nat, x: nat)
    requires WholeComponents(g, ids) && FinishOrder(g, order)
    requires j < |order| && (forall v: nat :: v < g.n ==> v in order)
    requires forall i :: 0 <= i < |order| ==> order[i] < g.n
    requires forall i :: j < i < |order| ==> Assigned(ids, order[i])
    requires x < g.n && !Assigned(ids, x) && Reach(g.E(), x, order[j])
    ensures Mutual(g.E(), x, order[j])
  {
    assert x in order;
    var i :| 0 <= i < |order| && order[i] == x;
    if i == j {
    } else {
      assert i < j;
      assert LaterTwin(g, order, i, j);
      var z: nat :| z < g.n && z !in order[..j] && Mutual(g.E(), x, z);
      assert z in order;
      var k :| 0 <= k < |order| && order[k] == z;
      assert k >= j;
    }
  }

  /** State of a backward search from r: `ids0` before it, `ids` now. */
  ghost predicate Backward(g: Graph, ids0: seq<nat>, ids: seq<nat>, r: nat, stack: seq<nat>) {
    && g.Valid() && |ids0| == g.n && |ids| == g.n && r < g.n
    && (forall p :: 0 <= p < |stack| ==> stack[p] < g.n && Reach(g.E(), stack[p], r))
    && (forall v :: 0 <= v < g.n && Assigned(ids0, v) ==> ids[v] == ids0[v])
    && (forall v :: 0 <= v < g.n && !Assigned(ids, v) ==> ids[v] == ids0[v])
    && (forall v :: 0 <= v < g.n && New(ids0, ids, v) ==> ids[v] == r && Reach(g.E(), v, r))
    && (forall e :: e in g.E() && New(ids0, ids, e.1) ==> Assigned(ids, e.0) || e.0 in stack)
    && (Assigned(ids, r) || r in stack)
  }

  predicate New(ids0: seq<nat>, ids: seq<nat>, v: nat)
    requires v < |ids0| && v < |ids|
  {
    !Assigned(ids0, v) && Assigned(ids, v)
  }

  lemma BackwardStarts(g: Graph, ids: seq<nat>, r: nat)
    requires g.Valid() && |ids| == g.n && r < g.n
    ensures Backward(g, ids, ids, r, [r])
  {
    ReachRefl(g.E(), r);
  }

  lemma BackwardFacts(g: Graph, ids0: seq<nat>, ids: seq<nat>, r: nat, stack: seq<nat>, u: nat)
    requires Backward(g, ids0, ids, r, stack + [u])
    ensures u < g.n && |ids| == g.n && |g.bwd| == g.n
    ensures forall i :: 0 <= i < |g.bwd[u]| ==> g.bwd[u][i] < g.n
    ensures Assigned(ids, u) ==> Backward(g, ids0, ids, r, stack)
  {
    assert (stack + [u])[|stack|] == u;
    assert forall p :: 0 <= p < |stack| ==> (stack + [u])[p] == stack[p];
    assert forall x: nat :: x in stack + [u] <==> x in stack || x == u;
  }

  lemma BackwardStep(g: Graph, ids0: seq<nat>, ids: seq<nat>, r: nat, stack: seq<nat>, u: nat, pushed: seq<nat>)
    requires Backward(g, ids0, ids, r, stack + [u]) && u < g.n && !Assigned(ids, u) && r < NOT_VISITED
    requires forall p :: 0 <= p < |pushed| ==> pushed[p] in g.bwd[u]
    requires forall w :: w in g.bwd[u] && w < |ids| && !Assigned(ids[u := r], w) ==> w in pushed
    ensures Backward(g, ids0, ids[u := r], r, stack + pushed)
  {
    var E, full, next, ids' := g.E(), stack + [u], stack + pushed, ids[u := r];
    assert full[|stack|] == u;
    assert forall p :: 0 <= p < |stack| ==> full[p] == stack[p];
    forall p | 0 <= p < |pushed|
      ensures pushed[p] < g.n && Reach(E, pushed[p], r)
    {
      g.EdgeIsBackward(pushed[p], u);
      ReachEdge(E, pushed[p], u);
      ReachTrans(E, pushed[p], u, r);
    }
    forall e | e in E && New(ids0, ids', e.1)
      ensures Assigned(ids', e.0) || e.0 in next
    {
      if e.1 == u {
        g.EdgeIsBackward(e.0, u);
      } else {
        assert New(ids0, ids, e.1);
        assert e.0 in full ==> e.0 in stack || e.0 == u;
      }
    }
  }

  lemma BackwardKeeps(g: Graph, ids0: seq<nat>, ids: seq<nat>, r: nat)
    requires Backward(g, ids0, ids, r, [])
    ensures |ids| == |ids0| == g.n
    ensures forall v :: 0 <= v < g.n && Assigned(ids0, v) ==> ids[v] == ids0[v]
  {
  }

  lemma BackwardDone(g: Graph, ids0: seq<nat>, ids: seq<nat>, r: nat)
    requires WholeComponents(g, ids0) && Backward(g, ids0, ids, r, [])
    requires r < NOT_VISITED && !Assigned(ids0, r)
    requires forall x :: 0 <= x < g.n && !Assigned(ids0, x) && Reach(g.E(), x, r) ==> Mutual(g.E(), x, r)
    ensures WholeComponents(g, ids) && Assigned(ids, r)
  {
    var E := g.E();
    forall v, w | 0 <= v < g.n && 0 <= w < g.n && Assigned(ids, v) && Mutual(E, v, w)
      ensures ids[w] == ids[v]
    {
      if !Assigned(ids0, v) {
        MutualTrans(E, w, v, r);
        WholeComponentFound(g, ids0, ids, r, w);
      }
    }
  }

  lemma WholeComponentFound(g: Graph, ids0: seq<nat>, ids: seq<nat>, r: nat, w: nat)
    requires WholeComponents(g, ids0) && Backward(g, ids0, ids, r, [])
    requires !Assigned(ids0, r) && w < g.n && Mutual(g.E(), w, r)
    ensures New(ids0, ids, w)
  {
    var E := g.E();
    if !New(ids0, ids, w) {
      var outside := set v | v in NodeSet(g.n) && !New(ids0, ids, v);
      var a, b := ReachLeaves(E, w, r, outside);
      g.EdgeIsForward(a, b);
      ReachEdge(E, a, b);
      ReachTrans(E, a, b, r);
      ReachTrans(E, r, w, a);
      assert New(ids0, ids, (a, b).1);
      assert Assigned(ids0, a) && Mutual(E, a, r);
      assert false;
    }
  }

  /** What a component labelling means, without reference to how it was found. */
  ghost predicate ComponentsFound(g: Graph, ids: seq<nat>) {
    && g.Valid() && |ids| == g.n
    && (forall u, v :: 0 <= u < g.n && 0 <= v < g.n ==> (ids[u] == ids[v] <==> Mutual(g.E(), u, v)))
    && (forall v :: 0 <= v < g.n ==> ids[v] < g.n && Mutual(g.E(), v, ids[v]))
  }

  lemma AllAssigned(g: Graph, ids: seq<nat>)
    requires WholeComponents(g, ids) && forall v :: 0 <= v < g.n ==> Assigned(ids, v)
    ensures ComponentsFound(g, ids)
  {
    forall u, v | 0 <= u < g.n && 0 <= v < g.n
      ensures ids[u] == ids[v] <==> Mutual(g.E(), u, v)
    {
      assert Assigned(ids, u) && Assigned(ids, v);
      if ids[u] == ids[v] {
        MutualTrans(g.E(), u, ids[u], v);
      }
    }
    forall v | 0 <= v < g.n
      ensures ids[v] < g.n && Mutual(g.E(), v, ids[v])
    {
      assert Assigned(ids, v);
      g.ReachInRange(v, ids[v]);
    }
  }

  lemma SearchStarts(g: Graph, ids: seq<nat>)
    requires g.Valid() && |ids| == g.n && forall v :: 0 <= v < g.n ==> ids[v] == NOT_VISITED
    ensures Search(g, ids, [], [])
  {
  }

  lemma SearchFacts(g: Graph, ids: seq<nat>, order: seq<nat>, v: nat)
    requires Search(g, ids, order, []) && v < g.n
    ensures |ids| == g.n && (ids[v] == NOT_VISITED || ids[v] == PROCESSED)
  {
  }

  lemma SearchEnds(g: Graph, ids: seq<nat>, order: seq<nat>)
    requires Search(g, ids, order, []) && forall v :: 0 <= v < g.n ==> ids[v] == PROCESSED
    ensures WholeComponents(g, ids) && FinishOrder(g, order)
    ensures forall v: nat :: v < g.n ==> v in order
    ensures forall i :: 0 <= i < |order| ==> order[i] < g.n
  {
  }

  ghost function White(ids: seq<nat>): set<nat> {
    set v | v in NodeSet(|ids|) && ids[v] == NOT_VISITED
  }

  /** Finished nodes stay finished, visited ones visited. */
  ghost predicate Advanced(before: seq<nat>, after: seq<nat>) {
    |after| == |before| && forall v :: 0 <= v < |before| ==>
      (before[v] == PROCESSED ==> after[v] == PROCESSED) && (before[v] != NOT_VISITED ==> after[v] != NOT_VISITED)
  }

  lemma AdvancedTrans(a: seq<nat>, b: seq<nat>, c: seq<nat>)
    requires Advanced(a, b) && Advanced(b, c)
    ensures Advanced(a, c)
  {
  }

  /** A visit takes one node out of the white set, a finish none. */
  lemma WhiteShrinks(ids: seq<nat>, offset: nat)
    requires offset < |ids|
    ensures ids[offset] == NOT_VISITED ==> White(ids[offset := VISITED]) < White(ids)
    ensures ids[offset] >= VISITED ==> White(ids[offset := PROCESSED]) == White(ids)
  {
    if ids[offset] == NOT_VISITED {
      assert offset in White(ids) - White(ids[offset := VISITED]);
    }
  }

  ghost function Unassigned(ids: seq<nat>): set<nat> {
    set v | v in NodeSet(|ids|) && !Assigned(ids, v)
  }

  // ------------------------------------------------------------------ the algorithm

  class Kosaraju {
    const graph: Graph
    const componentIDs: array<nat>
    const curData: array<nat>
    var size: nat

    constructor (g: Graph)
      requires g.Valid()
      ensures graph == g && componentIDs.Length == g.n && curData.Length == g.n && size == 0
      ensures forall v :: 0 <= v < g.n ==> componentIDs[v] == NOT_VISITED
      ensures fresh(componentIDs) && fresh(curData) && componentIDs != curData
    {
      graph := g;
      componentIDs := new nat[g.n](_ => NOT_VISITED);
      curData := new nat[g.n](_ => 0);
      size := 0;
    }

    ghost predicate Shape()
      reads this
    {
      graph.Valid() && graph.n < MAX_NODES && componentIDs.Length == graph.n && curData.Length == graph.n
      && componentIDs != curData && size <= graph.n
    }

    /** Two nodes end with the same component id exactly when each reaches the other; the id is the
        offset of a node of the component. */
    method Compute()
      requires Shape() && size == 0
      requires forall v :: 0 <= v < graph.n ==> componentIDs[v] == NOT_VISITED
      modifies this, componentIDs, curData
      ensures size == 0
      ensures ComponentsFound(graph, componentIDs[..])
    {
      hide Search, FinishOrder, WholeComponents, Graph.Valid, Graph.E;
      SearchStarts(graph, componentIDs[..]);
      assert curData[..size] == [];
      var i := 0;
      while i < graph.n
        invariant i <= graph.n && Shape()
        invariant Search(graph, componentIDs[..], curData[..size], [])
        invariant forall v :: 0 <= v < i ==> componentIDs[v] == PROCESSED
      {
        SearchFacts(graph, componentIDs[..], curData[..size], i);
        if componentIDs[i] < VISITED {
          ForwardDFS(i);
        }
        i := i + 1;
      }
      ghost var order := curData[..size];
      SearchEnds(graph, componentIDs[..], order);
      while size > 0
        invariant size <= |order| && Shape() && curData[..size] == order[..size]
        invariant WholeComponents(graph, componentIDs[..])
        invariant forall i :: size <= i < |order| ==> componentIDs[order[i]] < NOT_VISITED
      {
        size := size - 1;
        var offset := curData[size];
        assert offset == order[..size + 1][size] == order[size];
        if componentIDs[offset] >= NOT_VISITED {
          forall x | 0 <= x < graph.n && !Assigned(componentIDs[..], x) && Reach(graph.E(), x, offset)
            ensures Mutual(graph.E(), x, offset)
          {
            OnlyTwinsReachRoot(graph, componentIDs[..], order, size, x);
          }
          BackwardsDFS(offset);
        }
        assert order[size] == offset;
      }
      forall v | 0 <= v < graph.n
        ensures Assigned(componentIDs[..], v)
      {
        assert v in order;
      }
      AllAssigned(graph, componentIDs[..]);
    }

    method ForwardDFS(root: nat)
      requires Shape() && root < graph.n && componentIDs[root] == NOT_VISITED
      requires Search(graph, componentIDs[..], curData[..size], [])
      modifies this`size, componentIDs, curData
      ensures Shape()
      ensures Search(graph, componentIDs[..], curData[..size], [])
      ensures forall v :: 0 <= v < graph.n && old(componentIDs[v]) == PROCESSED ==> componentIDs[v] == PROCESSED
      ensures componentIDs[root] == PROCESSED
    {
      hide Search, Stack, White, Graph.Valid, Graph.E;
      var toProcess: seq<nat> := [root];
      ghost var path: seq<nat>, at: seq<nat> := [], [];
      StackStarts(graph.E(), componentIDs[..], root);
      while toProcess != []
        invariant Shape()
        invariant Search(graph, componentIDs[..], curData[..size], path)
        invariant Stack(graph.E(), componentIDs[..], path, toProcess, at)
        invariant Advanced(old(componentIDs[..]), componentIDs[..])
        invariant componentIDs[root] != NOT_VISITED || toProcess == [root]
        decreases White(componentIDs[..]), |toProcess|
      {
        TopFacts(graph, componentIDs[..], curData[..size], path, toProcess, at);
        ghost var ids := componentIDs[..];
        if componentIDs[toProcess[|toProcess| - 1]] >= VISITED {
          toProcess, path, at := PopTop(toProcess, path, at);
        } else {
          toProcess, path, at := VisitTop(toProcess, path, at);
        }
        AdvancedTrans(old(componentIDs[..]), ids, componentIDs[..]);
      }
      StackEnds(graph, componentIDs[..], curData[..size], path, at);
    }

    /** The top of the stack was visited before: the first copy finishes it, a repeated one is dropped. */
    method PopTop(toProcess: seq<nat>, ghost path: seq<nat>, ghost at: seq<nat>)
      returns (rest: seq<nat>, ghost path': seq<nat>, ghost at': seq<nat>)
      requires Shape() && toProcess != [] && toProcess[|toProcess| - 1] < graph.n && componentIDs[toProcess[|toProcess| - 1]] >= VISITED
      requires Search(graph, componentIDs[..], curData[..size], path) && Stack(graph.E(), componentIDs[..], path, toProcess, at)
      modifies this`size, componentIDs, curData
      ensures Shape() && rest == toProcess[..|toProcess| - 1]
      ensures Search(graph, componentIDs[..], curData[..size], path') && Stack(graph.E(), componentIDs[..], path', rest, at')
      ensures White(componentIDs[..]) == White(old(componentIDs[..])) && Advanced(old(componentIDs[..]), componentIDs[..])
    {
      hide Search, Stack, White, Graph.Valid, Graph.E;
      TopFacts(graph, componentIDs[..], curData[..size], path, toProcess, at);
      var offset := toProcess[|toProcess| - 1];
      ghost var ids, order := componentIDs[..], curData[..size];
      rest, path', at' := toProcess[..|toProcess| - 1], path, at;
      assert toProcess == rest + [offset];
      WhiteShrinks(ids, offset);
      PopStep(graph, ids, order, path, rest, offset, at);
      if componentIDs[offset] != PROCESSED {
        Push(offset);
        path', at' := path[..|path| - 1], at[..|path| - 1];
      }
    }

    /** The top of the stack is new: it is visited and its unvisited neighbours go on top of it. */
    method VisitTop(toProcess: seq<nat>, ghost path: seq<nat>, ghost at: seq<nat>)
      returns (more: seq<nat>, ghost path': seq<nat>, ghost at': seq<nat>)
      requires Shape() && toProcess != [] && toProcess[|toProcess| - 1] < graph.n
      requires componentIDs[toProcess[|toProcess| - 1]] == NOT_VISITED
      requires Search(graph, componentIDs[..], curData[..size], path) && Stack(graph.E(), componentIDs[..], path, toProcess, at)
      modifies componentIDs
      ensures Shape() && toProcess <= more && componentIDs[toProcess[|toProcess| - 1]] == VISITED
      ensures Search(graph, componentIDs[..], curData[..size], path') && Stack(graph.E(), componentIDs[..], path', more, at')
      ensures White(componentIDs[..]) < White(old(componentIDs[..])) && Advanced(old(componentIDs[..]), componentIDs[..])
    {
      hide Search, Stack, White, Graph.Valid, Graph.E;
      var offset := toProcess[|toProcess| - 1];
      ghost var ids, order, rest := componentIDs[..], curData[..size], toProcess[..|toProcess| - 1];
      assert toProcess == rest + [offset];
      WhiteShrinks(ids, offset);
      SetVisited(offset);
      graph.NbrsInRange(offset);
      var pushed := Unvisited(graph.fwd[offset]);
      VisitStep(graph, ids, order, path, rest, offset, at, pushed);
      more, path', at' := toProcess + pushed, path + [offset], at + [|rest|];
    }

    method SetVisited(offset: nat)
      requires offset < componentIDs.Length
      modifies componentIDs
      ensures componentIDs[..] == old(componentIDs[..])[offset := VISITED]
    {
      componentIDs[offset] := VISITED;
    }

    /** Appends a finished node to the order and marks it processed. */
    method Push(offset: nat)
      requires offset < componentIDs.Length && size < curData.Length && componentIDs != curData
      modifies this`size, componentIDs, curData
      ensures size == old(size) + 1 && curData[..size] == old(curData[..size]) + [offset]
      ensures componentIDs[..] == old(componentIDs[..])[offset := PROCESSED]
    {
      curData[size] := offset;
      size := size + 1;
      componentIDs[offset] := PROCESSED;
    }

    /** The forward scan collects every unvisited neighbour, once per edge. */
    method Unvisited(nbrs: seq<nat>) returns (pushed: seq<nat>)
      requires forall i :: 0 <= i < |nbrs| ==> nbrs[i] < componentIDs.Length
      ensures forall p :: 0 <= p < |pushed| ==> pushed[p] in nbrs && componentIDs[pushed[p]] < VISITED
      ensures forall w :: w in nbrs && componentIDs[w] < VISITED ==> w in pushed
    {
      pushed := [];
      for i := 0 to |nbrs|
        invariant forall p :: 0 <= p < |pushed| ==> pushed[p] in nbrs && componentIDs[pushed[p]] < VISITED
        invariant forall k :: 0 <= k < i && componentIDs[nbrs[k]] < VISITED ==> nbrs[k] in pushed
      {
        if componentIDs[nbrs[i]] < VISITED {
          pushed := pushed + [nbrs[i]];
        }
      }
    }

    method BackwardsDFS(root: nat)
      requires Shape() && root < graph.n && !Assigned(componentIDs[..], root)
      requires WholeComponents(graph, componentIDs[..])
      requires forall x :: 0 <= x < graph.n && !Assigned(componentIDs[..], x) && Reach(graph.E(), x, root) ==>
                 Mutual(graph.E(), x, root)
      modifies componentIDs
      ensures WholeComponents(graph, componentIDs[..]) && Assigned(componentIDs[..], root)
      ensures forall v :: 0 <= v < graph.n && old(componentIDs[v]) < NOT_VISITED ==> componentIDs[v] == old(componentIDs[v])
    {
      hide WholeComponents, Backward, Graph.Valid, Graph.E;
      var toProcess: seq<nat> := [root];
      ghost var ids0 := componentIDs[..];
      BackwardStarts(graph, ids0, root);
      while toProcess != []
        invariant Backward(graph, ids0, componentIDs[..], root, toProcess)
        decreases Unassigned(componentIDs[..]), |toProcess|
      {
        var nextNode := toProcess[|toProcess| - 1];
        ghost var ids, rest := componentIDs[..], toProcess[..|toProcess| - 1];
        assert toProcess == rest + [nextNode];
        BackwardFacts(graph, ids0, ids, root, rest, nextNode);
        toProcess := toProcess[..|toProcess| - 1];
        if componentIDs[nextNode] >= NOT_VISITED {
          componentIDs[nextNode] := root;
          assert componentIDs[..] == ids[nextNode := root];
          var pushed := WithoutComponent(graph.bwd[nextNode]);
          BackwardStep(graph, ids0, ids, root, rest, nextNode, pushed);
          toProcess := toProcess + pushed;
          assert nextNode in Unassigned(ids) - Unassigned(componentIDs[..]);
        }
      }
      BackwardDone(graph, ids0, componentIDs[..], root);
      BackwardKeeps(graph, ids0, componentIDs[..], root);
    }

    /** The backward scan collects every neighbour that has no component yet, once per edge. */
    method WithoutComponent(nbrs: seq<nat>) returns (pushed: seq<nat>)
      requires forall i :: 0 <= i < |nbrs| ==> nbrs[i] < componentIDs.Length
      ensures forall p :: 0 <= p < |pushed| ==> pushed[p] in nbrs && componentIDs[pushed[p]] >= NOT_VISITED
      ensures forall w :: w in nbrs && componentIDs[w] >= NOT_VISITED ==> w in pushed
    {
      pushed := [];
      for i := 0 to |nbrs|
        invariant forall p :: 0 <= p < |pushed| ==> pushed[p] in nbrs && componentIDs[pushed[p]] >= NOT_VISITED
        invariant forall k :: 0 <= k < i && componentIDs[nbrs[k]] >= NOT_VISITED ==> nbrs[k] in pushed
      {
        if componentIDs[nbrs[i]] >= NOT_VISITED {
          pushed := pushed + [nbrs[i]];
        }
      }
    }
  }
}
