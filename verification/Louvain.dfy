/** The Louvain method: iterations that move nodes between communities, phases that merge communities
    into nodes (algo/src/function/louvain.cpp). */
module Louvain {
  import opened Basics
  import opened Sums
  import opened Modularities
  import opened Graphs
  import opened LouvainGraph

  const THRESHOLD: real := 0.000001

  /** Loops over the nodes count with 32 bits. */
  const COUNTER_LIMIT: nat := 0x1_0000_0000

  // ------------------------------------------------------------------ community bookkeeping

  /** 1 for a node with edges, 0 for an isolated one. */
  ghost function Ones(adj: Adj): (r: nat -> int)
    ensures forall u: nat :: r(u) == if u < |adj| && adj[u] != [] then 1 else 0
  {
    (u: nat) => if u < |adj| && adj[u] != [] then 1 else 0
  }

  ghost function DegOf(adj: Adj, lab: seq<nat>, c: nat): int {
    CommDeg(|adj|, Mat(adj), Lab(lab), c)
  }

  ghost function SizeOf(adj: Adj, lab: seq<nat>, c: nat): int {
    Mass(|adj|, Ones(adj), Lab(lab), c)
  }

  /** Every community's degree is the sum of its members' weighted degrees. Its size counts its members
      with edges; an isolated node keeps its own entry. */
  ghost predicate Books(adj: Adj, lab: seq<nat>, degrees: seq<nat>, sizes: seq<nat>) {
    && |degrees| == |adj| && |sizes| == |adj|
    && forall c: nat :: c < |adj| ==>
      degrees[c] == DegOf(adj, lab, c) && sizes[c] == SizeOf(adj, lab, c) + (if adj[c] == [] then 1 else 0)
  }

  /** Per-community changes between two labellings, as 64-bit words that may have wrapped. */
  ghost predicate Deltas(adj: Adj, lab: seq<nat>, next: seq<nat>, dDeg: seq<nat>, dSize: seq<nat>) {
    && |dDeg| == |adj| && |dSize| == |adj|
    && forall c: nat :: c < |adj| ==>
      && dDeg[c] == Wrap(DegOf(adj, next, c) - DegOf(adj, lab, c))
      && dSize[c] == Wrap(SizeOf(adj, next, c) - SizeOf(adj, lab, c))
  }

  lemma MassMoves(n: nat, m: nat -> int, lab: seq<nat>, u: nat, d: nat, c: nat)
    requires |lab| == n && u < n
    ensures Mass(n, m, Lab(lab[u := d]), c) ==
            Mass(n, m, Lab(lab), c) + Pick(c == d, m(u)) - Pick(c == lab[u], m(u))
  {
    var L, M := Lab(lab), Lab(lab[u := d]);
    if lab[u] == d {
      assert lab[u := d] == lab;
    } else {
      MoveMass(n, m, L, u, d, c);
      SumEq(n, OfClass(Moved(L, u, d), m, c), OfClass(M, m, c));
    }
  }

  ghost function Wrap(x: int): nat { x % WORD }

  lemma WrapSmall(x: int)
    requires 0 <= x < WORD
    ensures Wrap(x) == x
  {
  }

  /** Both sums of the modularity fit 64 bits. */
  lemma SumsFit(adj: Adj, lab: seq<nat>)
    requires Good(adj) && LabelsOk(adj, lab, |adj|)
    ensures 0 <= Intra(|adj|, Mat(adj), Lab(lab)) < WORD && 0 <= SumSq(|adj|, Mat(adj), Lab(lab), |adj|) < WORD
  {
    var n, W, L := |adj|, Mat(adj), Lab(lab);
    LabelsAreLabelled(adj, lab, n);
    forall u: nat | u < n
      ensures Degrees(n, W)(u) >= 0
    {
      DegreeIsOut(adj, u);
    }
    hide Degrees, Square;
    SumSqBound(n, W, L, n);
    Sum2Monotone(n, Inside(W, L), W);
    FitsBelow(Total(n, W));
  }

  function Add64(a: nat, b: nat): nat { (a + b) % WORD }

  function Sub64(a: nat, b: nat): nat { (a + WORD - b % WORD) % WORD }

  lemma AddDelta(x: int, b: nat)
    ensures Add64(Wrap(x), b) == Wrap(x + b)
  {
  }

  lemma SubDelta(x: int, b: nat)
    ensures Sub64(Wrap(x), b) == Wrap(x - b)
  {
    var y := b % WORD;
    assert (x % WORD + WORD - y) % WORD == (x - y) % WORD;
    assert (x - y) % WORD == (x - b) % WORD;
  }

  /** The four atomic updates for a node that moves, as one value. */
  function Apply(s: seq<nat>, from: nat, to: nat, x: nat): (t: seq<nat>)
    requires from < |s| && to < |s| && from != to
    ensures |t| == |s|
  {
    var s1 := s[to := Add64(s[to], x)];
    s1[from := Sub64(s1[from], x)]
  }

  lemma DeltaStep(n: nat, m: nat -> int, lab: seq<nat>, mix: seq<nat>, u: nat, d: nat, s: seq<nat>, x: nat)
    requires |lab| == n == |mix| && |s| == n && u < n && mix[u] < n && d < n && d != mix[u] && m(u) == x
    requires forall c: nat :: c < n ==> s[c] == Wrap(Mass(n, m, Lab(mix), c) - Mass(n, m, Lab(lab), c))
    ensures var t := Apply(s, mix[u], d, x);
            forall c: nat :: c < n ==> t[c] == Wrap(Mass(n, m, Lab(mix[u := d]), c) - Mass(n, m, Lab(lab), c))
  {
    hide Wrap, Add64, Sub64, Mass;
    var t := Apply(s, mix[u], d, x);
    forall c: nat | c < n
      ensures t[c] == Wrap(Mass(n, m, Lab(mix[u := d]), c) - Mass(n, m, Lab(lab), c))
    {
      MassMoves(n, m, mix, u, d, c);
      var y := Mass(n, m, Lab(mix), c) - Mass(n, m, Lab(lab), c);
      AddDelta(y, x);
      SubDelta(y, x);
    }
  }

  /** Relabelling an isolated node changes no community. */
  lemma IsolatedMoves(adj: Adj, mix: seq<nat>, u: nat, d: nat, c: nat)
    requires InRange(adj) && |mix| == |adj| && u < |adj| && adj[u] == []
    ensures DegOf(adj, mix[u := d], c) == DegOf(adj, mix, c) && SizeOf(adj, mix[u := d], c) == SizeOf(adj, mix, c)
  {
    DegreeIsOut(adj, u);
    MassMoves(|adj|, Degrees(|adj|, Mat(adj)), mix, u, d, c);
    MassMoves(|adj|, Ones(adj), mix, u, d, c);
  }

  /** One processed node in any order: its next community replaces its current one. */
  lemma DeltasStep(adj: Adj, lab: seq<nat>, mix: seq<nat>, u: nat, d: nat, dDeg: seq<nat>, dSize: seq<nat>, x: nat)
    requires InRange(adj) && Deltas(adj, lab, mix, dDeg, dSize) && |lab| == |mix| == |adj|
    requires u < |adj| && x == OutWeight(adj[u])
    requires adj[u] == [] || (mix[u] < |adj| && d < |adj|)
    ensures if adj[u] == [] || d == mix[u] then Deltas(adj, lab, mix[u := d], dDeg, dSize)
            else Deltas(adj, lab, mix[u := d], Apply(dDeg, mix[u], d, x), Apply(dSize, mix[u], d, 1))
  {
    hide Wrap, Apply, Mass, Degrees, Good;
    if adj[u] == [] {
      forall c: nat | c < |adj|
        ensures DegOf(adj, mix[u := d], c) == DegOf(adj, mix, c) && SizeOf(adj, mix[u := d], c) == SizeOf(adj, mix, c)
      {
        IsolatedMoves(adj, mix, u, d, c);
      }
    } else if d == mix[u] {
      assert mix[u := d] == mix;
    } else {
      DegreeIsOut(adj, u);
      DeltaStep(|adj|, Degrees(|adj|, Mat(adj)), lab, mix, u, d, dDeg, x);
      DeltaStep(|adj|, Ones(adj), lab, mix, u, d, dSize, 1);
    }
  }

  lemma MassBounds(n: nat, m: nat -> int, L: Labels, c: int)
    requires forall u: nat :: u < n ==> m(u) >= 0
    ensures 0 <= Mass(n, m, L, c) <= Sum(n, m)
  {
    var rest: nat -> int := (u: nat) => m(u) - OfClass(L, m, c)(u);
    SumNonneg(n, OfClass(L, m, c));
    forall u: nat | u < n
      ensures rest(u) >= 0
    {
      assert rest(u) == m(u) - OfClass(L, m, c)(u);
    }
    SumNonneg(n, rest);
    SumPlus(n, OfClass(L, m, c), rest, m);
  }

  lemma DegBounds(adj: Adj, lab: seq<nat>, c: nat)
    requires Good(adj)
    ensures 0 <= DegOf(adj, lab, c) < WORD
  {
    forall u: nat | u < |adj|
      ensures Degrees(|adj|, Mat(adj))(u) >= 0
    {
      DegreeIsOut(adj, u);
    }
    MassBounds(|adj|, Degrees(|adj|, Mat(adj)), Lab(lab), c);
    FitsBelow(Total(|adj|, Mat(adj)));
  }

  lemma {:induction false} SumOnes(n: nat, m: nat -> int)
    requires forall u: nat :: u < n ==> 0 <= m(u) <= 1
    ensures 0 <= Sum(n, m) <= n
  {
    if n > 0 {
      SumOnes(n - 1, m);
    }
  }

  lemma SizeBounds(adj: Adj, lab: seq<nat>, c: nat)
    ensures 0 <= SizeOf(adj, lab, c) <= |adj|
  {
    MassBounds(|adj|, Ones(adj), Lab(lab), c);
    SumOnes(|adj|, Ones(adj));
  }

  /** Adding the wrapped changes restores the exact books of the new labelling. */
  lemma BooksMove(adj: Adj, lab: seq<nat>, next: seq<nat>, degrees: seq<nat>, sizes: seq<nat>, dDeg: seq<nat>, dSize: seq<nat>,
                  degrees': seq<nat>, sizes': seq<nat>)
    requires Good(adj) && |adj| < UNASSIGNED && Books(adj, lab, degrees, sizes) && Deltas(adj, lab, next, dDeg, dSize)
    requires |degrees'| == |adj| == |sizes'|
    requires forall c: nat :: c < |adj| ==>
               degrees'[c] == Add64(degrees[c], dDeg[c]) && sizes'[c] == Add64(sizes[c], dSize[c])
    ensures Books(adj, next, degrees', sizes')
  {
    hide Wrap, Add64, DegOf, SizeOf, Mat, Good;
    forall c: nat | c < |adj|
      ensures degrees'[c] == DegOf(adj, next, c)
      ensures sizes'[c] == SizeOf(adj, next, c) + (if adj[c] == [] then 1 else 0)
    {
      DegBounds(adj, next, c);
      SizeBounds(adj, next, c);
      Rejoin(DegOf(adj, next, c) - DegOf(adj, lab, c), degrees[c]);
      Rejoin(SizeOf(adj, next, c) - SizeOf(adj, lab, c), sizes[c]);
    }
  }

  lemma Rejoin(delta: int, a: nat)
    requires 0 <= a + delta < WORD
    ensures Add64(a, Wrap(delta)) == a + delta
  {
  }

  // ------------------------------------------------------------------ one node's choice

  /** What the list sums to for community c is u's tie to it, plus the self-loop in its own community. */
  lemma TieIsList(adj: Adj, lab: seq<nat>, u: nat, c: nat)
    requires InRange(adj) && |lab| == |adj| && u < |adj|
    ensures Toward(|adj|, Mat(adj), Lab(lab), u, c) ==
            WeightIn(adj[u], lab, c) - (if lab[u] == c then WeightTo(adj[u], u) else 0)
  {
    var n, W, L := |adj|, Mat(adj), Lab(lab);
    ListIsRow(n, adj[u], lab, c);
    var one := Single(u, Pick(lab[u] == c, WeightTo(adj[u], u)));
    SumHit(n, u, one);
    forall v: nat | v < n
      ensures OfClass(L, ToRow(adj[u]), c)(v) == Others(W, L, u, c)(v) + one(v)
    {
      assert W(u, v) == WeightTo(adj[u], v);
    }
    SumPlus(n, Others(W, L, u, c), one, OfClass(L, ToRow(adj[u]), c));
  }

  /** Weights of u's edges per community, its own always present, and the weight of its self-loops. */
  method IntraCommWeights(es: seq<Nbr>, u: nat, lab: seq<nat>) returns (weights: map<nat, nat>, selfLoop: nat)
    requires u < |lab| && forall i :: 0 <= i < |es| ==> es[i].to < |lab|
    ensures selfLoop == WeightTo(es, u)
    ensures forall c: nat :: c in weights <==> c == lab[u] || exists i :: 0 <= i < |es| && lab[es[i].to] == c
    ensures forall c: nat :: c in weights ==> weights[c] == WeightIn(es, lab, c)
  {
    weights, selfLoop := map[lab[u] := 0], 0;
    for i := 0 to |es|
      invariant selfLoop == WeightTo(es[..i], u)
      invariant forall c: nat :: c in weights <==> c == lab[u] || exists j :: 0 <= j < i && lab[es[j].to] == c
      invariant forall c: nat :: c in weights ==> weights[c] == WeightIn(es[..i], lab, c)
      invariant forall c: nat :: c !in weights ==> WeightIn(es[..i], lab, c) == 0
    {
      assert es[..i + 1][..i] == es[..i];
      if es[i].to == u {
        selfLoop := selfLoop + es[i].w;
      }
      var c := lab[es[i].to];
      if c !in weights {
        weights := weights[c := es[i].w];
      } else {
        weights := weights[c := weights[c] + es[i].w];
      }
    }
    assert es[..|es|] == es;
  }

  /** What a node sees when it chooses: true ties and true community degrees. */
  ghost predicate Sees(adj: Adj, lab: seq<nat>, degrees: seq<nat>, sizes: seq<nat>, u: nat, weights: map<nat, nat>, selfLoop: nat)
  {
    && Good(adj) && LabelsOk(adj, lab, |adj|) && Books(adj, lab, degrees, sizes)
    && u < |adj| && adj[u] != [] && lab[u] in weights && selfLoop == WeightTo(adj[u], u)
    && forall c: nat :: c in weights ==> c < |adj| && weights[c] == WeightIn(adj[u], lab, c)
  }

  /** 2m times the exact change of modularity if u alone moved to c. */
  ghost function Gain(adj: Adj, lab: seq<nat>, u: nat, c: nat): real
    requires Good(adj)
  {
    TrueGain(|adj|, Mat(adj), Lab(lab), u, c)
  }

  lemma GainIsExact(adj: Adj, lab: seq<nat>, u: nat, c: nat)
    requires Good(adj) && LabelsOk(adj, lab, |adj|) && u < |adj| && adj[u] != [] && c < |adj| && c != lab[u]
    ensures Gain(adj, lab, u, c) == Total(|adj|, Mat(adj)) as real * (Mod(adj, lab[u := c], |adj|) - Mod(adj, lab, |adj|))
  {
    hide Mat, Total, Modularity, TrueGain;
    var n, W, L := |adj|, Mat(adj), Lab(lab);
    ModGainExact(n, W, L, u, c, n);
    SameLabelsSameScore(n, W, Moved(L, u, c), Lab(lab[u := c]), n);
  }

  lemma SameLabelsSameScore(n: nat, W: Matrix, L: Labels, M: Labels, k: nat)
    requires Total(n, W) > 0 && forall u: nat :: u < n ==> L(u) == M(u)
    ensures Modularity(n, W, L, k) == Modularity(n, W, M, k)
  {
    Sum2Eq(n, Inside(W, L), Inside(W, M));
    forall x: nat | x < k
      ensures Squares(n, W, L)(x) == Squares(n, W, M)(x)
    {
      SumEq(n, OfClass(L, Degrees(n, W), x), OfClass(M, Degrees(n, W), x));
    }
    SumEq(k, Squares(n, W, L), Squares(n, W, M));
  }

  /** The gain computed from the bookkeeping is the exact one. */
  lemma ComputedGain(adj: Adj, lab: seq<nat>, degrees: seq<nat>, sizes: seq<nat>, u: nat, weights: map<nat, nat>, selfLoop: nat, c: nat)
    requires Sees(adj, lab, degrees, sizes, u, weights, selfLoop) && c in weights && c != lab[u]
    ensures ModGain(weights[c], weights[lab[u]] - selfLoop, OutWeight(adj[u]), Total(|adj|, Mat(adj)), degrees[c],
                    degrees[lab[u]] - OutWeight(adj[u])) == Gain(adj, lab, u, c)
  {
    hide *;
    SeesFacts(adj, lab, degrees, sizes, u, weights, selfLoop);
    SeesAt(adj, lab, degrees, sizes, u, weights, selfLoop, c);
    SeesAt(adj, lab, degrees, sizes, u, weights, selfLoop, lab[u]);
    TieIsList(adj, lab, u, c);
    TieIsList(adj, lab, u, lab[u]);
    DegreeIsOut(adj, u);
    GainFrom(adj, lab, u, c, weights[c], weights[lab[u]] - selfLoop, OutWeight(adj[u]), degrees[c],
             degrees[lab[u]] - OutWeight(adj[u]));
  }

  lemma SeesAt(adj: Adj, lab: seq<nat>, degrees: seq<nat>, sizes: seq<nat>, u: nat, weights: map<nat, nat>, selfLoop: nat, c: nat)
    requires Sees(adj, lab, degrees, sizes, u, weights, selfLoop) && c in weights
    ensures InRange(adj) && c < |degrees| && u < |adj| == |lab| && selfLoop == WeightTo(adj[u], u)
    ensures weights[c] == WeightIn(adj[u], lab, c) && degrees[c] == DegOf(adj, lab, c)
  {
  }

  lemma GainFrom(adj: Adj, lab: seq<nat>, u: nat, c: nat, a: int, b: int, m: int, x: int, y: int)
    requires Good(adj) && u < |lab| && a == Toward(|adj|, Mat(adj), Lab(lab), u, c)
    requires b == Toward(|adj|, Mat(adj), Lab(lab), u, lab[u]) && m == Degrees(|adj|, Mat(adj))(u)
    requires x == DegOf(adj, lab, c) && y == DegOf(adj, lab, lab[u]) - m
    ensures ModGain(a, b, m, Total(|adj|, Mat(adj)), x, y) == Gain(adj, lab, u, c)
  {
    hide ModGain, Toward, CommDeg, Degrees;
    LabAt(lab, u);
  }

  lemma LabAt(lab: seq<nat>, u: nat)
    requires u < |lab|
    ensures Lab(lab)(u) == lab[u]
  {
  }

  lemma SeesFacts(adj: Adj, lab: seq<nat>, degrees: seq<nat>, sizes: seq<nat>, u: nat, weights: map<nat, nat>, selfLoop: nat)
    requires Sees(adj, lab, degrees, sizes, u, weights, selfLoop)
    ensures Good(adj) && Total(|adj|, Mat(adj)) > 0 && LabelsOk(adj, lab, |adj|) && |degrees| == |adj| == |sizes| && u < |adj| == |lab| && adj[u] != []
    ensures lab[u] in weights && forall c: nat :: c in weights ==> c < |adj|
  {
  }

  /** Two singleton communities may only merge towards the smaller id. */
  predicate SwapProtected(sizes: seq<nat>, from: nat, to: nat)
    requires from < |sizes| && to < |sizes|
  {
    sizes[to] == 1 && sizes[from] == 1 && to > from
  }

  /** The best community so far and its gain, after looking at these in order: a higher gain wins, and so does
      a smaller id whose gain is not lower by the threshold and not 0. */
  ghost function Decide(adj: Adj, lab: seq<nat>, u: nat, order: seq<nat>): (nat, real)
    requires Good(adj) && u < |lab|
  {
    if order == [] then (lab[u], 0.0)
    else
      var best := Decide(adj, lab, u, order[..|order| - 1]);
      var c := order[|order| - 1];
      var gain := Gain(adj, lab, u, c);
      if c != lab[u] && (gain > best.1 || (best.1 - gain < THRESHOLD && gain != 0.0 && c < best.0)) then (c, gain) else best
  }

  ghost predicate Visits(keys: set<nat>, order: seq<nat>) {
    NoRepeats(order) && forall c :: c in order <==> c in keys
  }

  ghost predicate PickedBy(adj: Adj, lab: seq<nat>, sizes: seq<nat>, u: nat, order: seq<nat>, target: nat) {
    && Good(adj) && u < |lab| && lab[u] < |sizes|
    && var best := Decide(adj, lab, u, order).0;
       best < |sizes| && target == if SwapProtected(sizes, lab[u], best) then lab[u] else best
  }

  ghost predicate Picked(adj: Adj, lab: seq<nat>, sizes: seq<nat>, u: nat, keys: set<nat>, target: nat) {
    exists order: seq<nat> :: Visits(keys, order) && PickedBy(adj, lab, sizes, u, order, target)
  }

  lemma VisitsNone()
    ensures forall keys: set<nat> :: Visits(keys - keys, [])
  {
  }

  lemma VisitsOne(keys: set<nat>, todo: set<nat>, order: seq<nat>, c: nat)
    requires Visits(keys - todo, order) && c in keys && c in todo
    ensures Visits(keys - (todo - {c}), order + [c])
  {
  }

  lemma DecideNone(adj: Adj, lab: seq<nat>, u: nat)
    requires Good(adj) && u < |lab|
    ensures Decide(adj, lab, u, []) == (lab[u], 0.0)
  {
  }

  lemma DecideOne(adj: Adj, lab: seq<nat>, u: nat, order: seq<nat>, c: nat)
    requires Good(adj) && u < |lab|
    ensures var best, gain := Decide(adj, lab, u, order), Gain(adj, lab, u, c);
            Decide(adj, lab, u, order + [c]) ==
            if c != lab[u] && (gain > best.1 || (best.1 - gain < THRESHOLD && gain != 0.0 && c < best.0)) then (c, gain) else best
  {
    hide Good, Gain;
    assert (order + [c])[..|order|] == order;
  }

  lemma PickedOne(adj: Adj, lab: seq<nat>, sizes: seq<nat>, u: nat, order: seq<nat>)
    requires Good(adj) && u < |lab| && lab[u] < |sizes| && Decide(adj, lab, u, order).0 < |sizes|
    ensures var best := Decide(adj, lab, u, order).0;
            PickedBy(adj, lab, sizes, u, order, if SwapProtected(sizes, lab[u], best) then lab[u] else best)
  {
    hide Good, Decide, SwapProtected;
  }

  /** Picks a community for u among those of its neighbours, looking at them in any order. u stays only
      if no move would raise the modularity, or the move was swap-protected. */
  method FindPotentialNewComm(adj: Adj, lab: seq<nat>, degrees: seq<nat>, sizes: seq<nat>, total: nat, degree: nat,
                              u: nat, weights: map<nat, nat>, selfLoop: nat) returns (newComm: nat)
    requires Sees(adj, lab, degrees, sizes, u, weights, selfLoop)
    requires total == Total(|adj|, Mat(adj)) && total > 0 && degree == OutWeight(adj[u])
    ensures newComm in weights
    ensures Picked(adj, lab, sizes, u, weights.Keys, newComm)
    ensures newComm != lab[u] ==> !SwapProtected(sizes, lab[u], newComm)
    ensures newComm == lab[u] ==>
              || (forall c: nat :: c in weights && c != lab[u] ==> Mod(adj, lab[u := c], |adj|) <= Mod(adj, lab, |adj|))
              || (exists c: nat :: c in weights && SwapProtected(sizes, lab[u], c))
  {
    hide Sees, Gain, Mod, ModGain, Good, LabelsOk, Total, Mat, Decide, Visits, PickedBy, SwapProtected;
    VisitsNone();
    SeesFacts(adj, lab, degrees, sizes, u, weights, selfLoop);
    var currComm := lab[u];
    newComm := currComm;
    var newCommModGain := 0.0;
    var prevIntra := weights[currComm] - selfLoop;
    var prevDegrees := degrees[currComm] - degree;
    var todo := weights.Keys;
    ghost var seen: seq<nat> := [];
    DecideNone(adj, lab, u);
    while todo != {}
      invariant todo <= weights.Keys && newComm in weights
      invariant Visits(weights.Keys - todo, seen) && Decide(adj, lab, u, seen) == (newComm, newCommModGain)
      invariant newComm == currComm ==> newCommModGain == 0.0
      invariant newComm == currComm ==>
                  (forall c: nat :: c in weights && c !in todo && c != currComm ==> Gain(adj, lab, u, c) <= 0.0)
      decreases |todo|
    {
      var c :| c in todo;
      VisitsOne(weights.Keys, todo, seen, c);
      todo := todo - {c};
      DecideOne(adj, lab, u, seen, c);
      seen := seen + [c];
      if c != currComm {
        var modGain := ModGain(weights[c], prevIntra, degree, total, degrees[c], prevDegrees);
        ComputedGain(adj, lab, degrees, sizes, u, weights, selfLoop, c);
        if modGain > newCommModGain || (newCommModGain - modGain < THRESHOLD && modGain != 0.0 && c < newComm) {
          newCommModGain := modGain;
          newComm := c;
        }
      }
    }
    if newComm == currComm {
      forall c: nat | c in weights && c != currComm
        ensures Mod(adj, lab[u := c], |adj|) <= Mod(adj, lab, |adj|)
      {
        GainIsExact(adj, lab, u, c);
        SignOfScaled(total, Gain(adj, lab, u, c), Mod(adj, lab[u := c], |adj|), Mod(adj, lab, |adj|));
      }
    }
    assert weights.Keys - todo == weights.Keys;
    PickedOne(adj, lab, sizes, u, seen);
    if SwapProtected(sizes, currComm, newComm) {
      newComm := currComm;
    }
  }

  lemma SignOfScaled(t: int, gain: real, a: real, b: real)
    requires t > 0 && gain == t as real * (a - b) && gain <= 0.0
    ensures a <= b
  {
  }

  // ------------------------------------------------------------------ what a node chooses

  /** The communities of u and of its neighbours. */
  ghost function Around(adj: Adj, lab: seq<nat>, u: nat): (s: set<nat>)
    requires InRange(adj) && |lab| == |adj| && u < |adj|
    ensures forall c: nat :: c in s <==> c == lab[u] || exists i :: 0 <= i < |adj[u]| && lab[adj[u][i].to] == c
  {
    {lab[u]} + set i | 0 <= i < |adj[u]| :: lab[adj[u][i].to]
  }

  ghost function SizeAt(adj: Adj, lab: seq<nat>, c: nat): int
    requires c < |adj|
  {
    SizeOf(adj, lab, c) + (if adj[c] == [] then 1 else 0)
  }

  /** Two singleton communities may only merge towards the smaller id. */
  ghost predicate Protected(adj: Adj, lab: seq<nat>, from: nat, to: nat) {
    from < |adj| && to < |adj| && SizeAt(adj, lab, to) == 1 && SizeAt(adj, lab, from) == 1 && to > from
  }

  ghost predicate ChosenBy(adj: Adj, lab: seq<nat>, u: nat, target: nat, order: seq<nat>)
    requires Good(adj) && |lab| == |adj| && u < |adj|
  {
    var best := Decide(adj, lab, u, order).0;
    Visits(Around(adj, lab, u), order) && target == if Protected(adj, lab, lab[u], best) then lab[u] else best
  }

  /** What u may move to: the outcome of looking at the communities around it in some order. */
  ghost predicate Chosen(adj: Adj, lab: seq<nat>, u: nat, target: nat)
    requires Good(adj) && |lab| == |adj| && u < |adj|
  {
    if adj[u] == [] then target == UNASSIGNED else exists order: seq<nat> :: ChosenBy(adj, lab, u, target, order)
  }

  /** One round: every node chooses from the same labels. */
  ghost predicate Round(adj: Adj, lab: seq<nat>, next: seq<nat>)
    requires Good(adj)
  {
    |lab| == |adj| == |next| && forall u: nat :: u < |adj| ==> Chosen(adj, lab, u, next[u])
  }

  ghost function Slack(k: nat): real { k as real * THRESHOLD }

  /** The best so far is behind none of the communities seen by more than the slack. */
  ghost predicate NearBest(adj: Adj, lab: seq<nat>, u: nat, order: seq<nat>, best: (nat, real), slack: real)
    requires Good(adj) && u < |lab|
  {
    && (best.0 == lab[u] || best.0 in order)
    && best.1 == (if best.0 == lab[u] then 0.0 else Gain(adj, lab, u, best.0))
    && 0.0 <= best.1 + slack
    && forall c :: c in order && c != lab[u] ==> Gain(adj, lab, u, c) <= best.1 + slack
  }

  lemma SlackMore(k: nat)
    ensures Slack(k + 1) == Slack(k) + THRESHOLD && Slack(0) == 0.0
  {
  }

  lemma NearBestMore(adj: Adj, lab: seq<nat>, u: nat, order: seq<nat>, best: (nat, real), slack: real, c: nat)
    requires Good(adj) && u < |lab| && NearBest(adj, lab, u, order, best, slack)
    ensures var gain := Gain(adj, lab, u, c);
            var next := if c != lab[u] && (gain > best.1 || (best.1 - gain < THRESHOLD && gain != 0.0 && c < best.0)) then (c, gain) else best;
            NearBest(adj, lab, u, order + [c], next, slack + THRESHOLD)
  {
    hide Gain, Good;
  }

  lemma {:induction false} DecideNearBest(adj: Adj, lab: seq<nat>, u: nat, order: seq<nat>)
    requires Good(adj) && u < |lab|
    ensures NearBest(adj, lab, u, order, Decide(adj, lab, u, order), Slack(|order|))
  {
    hide Gain, Good, Slack;
    if order == [] {
      SlackMore(0);
    } else {
      var front, c := order[..|order| - 1], order[|order| - 1];
      DecideNearBest(adj, lab, u, front);
      assert order == front + [c];
      hide NearBest;
      SlackMore(|front|);
      NearBestMore(adj, lab, u, front, Decide(adj, lab, u, front), Slack(|front|), c);
    }
  }

  /** A node ends up, swap protection aside, where the modularity would be highest if it alone moved, up to
      the threshold per community around it. */
  lemma ChosenNearBest(adj: Adj, lab: seq<nat>, u: nat, target: nat) returns (best: nat)
    requires Good(adj) && LabelsOk(adj, lab, |adj|) && u < |adj| && adj[u] != [] && Chosen(adj, lab, u, target)
    ensures best in Around(adj, lab, u) && target == if Protected(adj, lab, lab[u], best) then lab[u] else best
    ensures forall c: nat :: c in Around(adj, lab, u) ==> Behind(adj, lab, u, c, best, |Around(adj, lab, u)|)
  {
    AroundInRange(adj, lab, u);
    hide Good, LabelsOk, Decide, Protected, Around, Gain, Behind, InRange;
    var order: seq<nat> :| ChosenBy(adj, lab, u, target, order);
    best := Decide(adj, lab, u, order).0;
    DecideNearBest(adj, lab, u, order);
    VisitsSize(Around(adj, lab, u), order);
    forall c: nat | c in Around(adj, lab, u)
      ensures Behind(adj, lab, u, c, best, |order|)
    {
      GainBehind(adj, lab, u, c, best, |order|);
    }
  }

  /** Moving u to c would not raise the modularity by more than k thresholds over moving it to best; gains are
      scaled by the total weight. */
  ghost predicate Behind(adj: Adj, lab: seq<nat>, u: nat, c: nat, best: nat, k: nat)
    requires Good(adj) && u < |lab|
  {
    Total(|adj|, Mat(adj)) as real * (Mod(adj, lab[u := c], |adj|) - Mod(adj, lab[u := best], |adj|)) <= k as real * THRESHOLD
  }

  lemma VisitsSize(keys: set<nat>, order: seq<nat>)
    requires Visits(keys, order)
    ensures |order| == |keys|
  {
    DistinctSize(order);
    assert Elems(order) == keys;
  }

  lemma GainBehind(adj: Adj, lab: seq<nat>, u: nat, c: nat, best: nat, k: nat)
    requires Good(adj) && LabelsOk(adj, lab, |adj|) && u < |adj| == |lab| && adj[u] != [] && c < |adj| && best < |adj|
    requires (if c == lab[u] then 0.0 else Gain(adj, lab, u, c)) <= (if best == lab[u] then 0.0 else Gain(adj, lab, u, best)) + k as real * THRESHOLD
    ensures Behind(adj, lab, u, c, best, k)
  {
    hide Good, LabelsOk, Gain, Mod, Total, Mat;
    GainToward(adj, lab, u, best);
    GainToward(adj, lab, u, c);
    Distribute(Total(|adj|, Mat(adj)) as real, Mod(adj, lab[u := c], |adj|), Mod(adj, lab, |adj|), Mod(adj, lab[u := best], |adj|));
  }

  lemma Distribute(t: real, a: real, b: real, c: real)
    ensures t * (a - c) == t * (a - b) - t * (c - b)
  {
  }

  lemma GainToward(adj: Adj, lab: seq<nat>, u: nat, c: nat)
    requires Good(adj) && LabelsOk(adj, lab, |adj|) && u < |adj| == |lab| && adj[u] != [] && c < |adj|
    ensures (if c == lab[u] then 0.0 else Gain(adj, lab, u, c)) ==
            Total(|adj|, Mat(adj)) as real * (Mod(adj, lab[u := c], |adj|) - Mod(adj, lab, |adj|))
  {
    hide Good, LabelsOk, Gain, Mod, Total, Mat;
    if c == lab[u] {
      assert lab[u := c] == lab;
    } else {
      GainIsExact(adj, lab, u, c);
    }
  }

  lemma AroundInRange(adj: Adj, lab: seq<nat>, u: nat)
    requires Good(adj) && LabelsOk(adj, lab, |adj|) && u < |adj| && adj[u] != []
    ensures InRange(adj) && lab[u] < |adj| && lab[u] in Around(adj, lab, u) && forall c: nat :: c in Around(adj, lab, u) ==> c < |adj|
  {
    forall c: nat | c in Around(adj, lab, u)
      ensures c < |adj|
    {
      if c != lab[u] {
        var i :| 0 <= i < |adj[u]| && lab[adj[u][i].to] == c;
        NeighbourLabelled(adj, lab, |adj|, u, i);
      }
    }
  }

  // ------------------------------------------------------------------ computed modularity

  ghost function Own(adj: Adj, lab: seq<nat>): (r: nat -> int)
    requires InRange(adj) && |lab| == |adj|
    ensures forall u: nat :: r(u) == if u < |adj| then WeightIn(adj[u], lab, lab[u]) else 0
  {
    (u: nat) => if u < |adj| then WeightIn(adj[u], lab, lab[u]) else 0
  }

  /** The weights each node has inside its own community add up to the weight inside communities. */
  lemma OwnIsIntra(adj: Adj, lab: seq<nat>)
    requires InRange(adj) && |lab| == |adj|
    ensures Sum(|adj|, Own(adj, lab)) == Intra(|adj|, Mat(adj), Lab(lab))
  {
    var n, W, L := |adj|, Mat(adj), Lab(lab);
    forall u: nat | u < n
      ensures Row(n, Inside(W, L))(u) == Own(adj, lab)(u)
    {
      ListIsRow(n, adj[u], lab, lab[u]);
      forall v: nat | v < n
        ensures OfClass(L, ToRow(adj[u]), lab[u])(v) == Inside(W, L)(u, v)
      {
        assert W(u, v) == WeightTo(adj[u], v) && L(u) == lab[u];
      }
      SumEq(n, OfClass(L, ToRow(adj[u]), lab[u]), (v: nat) => Inside(W, L)(u, v));
    }
    SumEq(n, Row(n, Inside(W, L)), Own(adj, lab));
  }

  /** The score as the loop computes it: both sums times the modularity constant. */
  function CurrMod(sumIntra: int, sumSquares: int, total: int): real
    requires total > 0
  {
    var modularityConstant := 1.0 / total as real;
    sumIntra as real * modularityConstant - sumSquares as real * modularityConstant * modularityConstant
  }

  lemma CurrModIsScore(intra: int, sq: int, total: int)
    requires total > 0
    ensures CurrMod(intra, sq, total) == Score(intra, sq, total)
  {
    var t := total as real;
    assert intra as real * (1.0 / t) == intra as real / t;
    assert sq as real * (1.0 / t) * (1.0 / t) == sq as real / (t * t);
  }

  lemma BooksGiveSquares(adj: Adj, lab: seq<nat>, degrees: seq<nat>, sizes: seq<nat>, f: nat -> int)
    requires Books(adj, lab, degrees, sizes)
    requires forall c: nat :: c < |adj| ==> f(c) == Square(degrees[c])
    ensures Sum(|adj|, f) == SumSq(|adj|, Mat(adj), Lab(lab), |adj|)
  {
    hide Square, CommDeg, Mat, Lab, SizeOf;
    forall c: nat | c < |adj|
      ensures f(c) == Squares(|adj|, Mat(adj), Lab(lab))(c)
    {
      assert degrees[c] == DegOf(adj, lab, c);
    }
    SumEq(|adj|, f, Squares(|adj|, Mat(adj), Lab(lab)));
  }

  ghost function At(s: seq<nat>): (r: nat -> int)
    ensures forall u: nat :: r(u) == if u < |s| then s[u] else 0
  {
    (u: nat) => if u < |s| then s[u] else 0
  }

  ghost function SquaresOf(s: seq<nat>): (r: nat -> int)
    ensures forall u: nat :: r(u) == if u < |s| then Square(s[u]) else 0
  {
    (u: nat) => if u < |s| then Square(s[u]) else 0
  }

  // ------------------------------------------------------------------ one phase

  class PhaseState {
    const graph: Adj
    var acceptedComm: seq<nat>
    var currComm: seq<nat>
    var nextComm: seq<nat>
    var currDegrees: seq<nat>
    var currSizes: seq<nat>
    var nextDegrees: seq<nat>
    var nextSizes: seq<nat>
    var nodeWeightedDegrees: seq<nat>
    var selfCommWeights: seq<nat>
    var totalWeight: nat

    ghost predicate Valid()
      reads this
    {
      && Good(graph) && totalWeight == Total(|graph|, Mat(graph)) && totalWeight > 0
      && |nodeWeightedDegrees| == |graph|
      && (forall u: nat :: u < |graph| ==> nodeWeightedDegrees[u] == OutWeight(graph[u]))
      && LabelsOk(graph, acceptedComm, |graph|) && LabelsOk(graph, currComm, |graph|)
      && Books(graph, currComm, currDegrees, currSizes)
    }

    /** Every node starts in its own community. */
    constructor (adj: Adj)
      requires Good(adj)
      ensures Valid() && graph == adj
      ensures acceptedComm == currComm == Identity(|adj|)
    {
      hide *;
      graph := adj;
      acceptedComm, currComm, nextComm := Identity(|adj|), Identity(|adj|), seq(|adj|, _ => UNASSIGNED);
      nextDegrees, nextSizes, selfCommWeights := [], [], [];
      GoodFacts(adj);
      var degrees, total := WeightedDegrees(adj);
      nodeWeightedDegrees, currDegrees, totalWeight := degrees, degrees, total;
      var sizes := seq(|adj|, _ => 1);
      currSizes := sizes;
      BooksStart(adj, degrees, sizes);
      IdentityOk(adj);
      new;
      ValidFrom();
    }

    /** Lists a freshly built state's facts. */
    lemma ValidFrom()
      requires Good(graph) && totalWeight == Total(|graph|, Mat(graph)) && totalWeight > 0
      requires |nodeWeightedDegrees| == |graph|
      requires forall u: nat :: u < |graph| ==> nodeWeightedDegrees[u] == OutWeight(graph[u])
      requires LabelsOk(graph, acceptedComm, |graph|) && LabelsOk(graph, currComm, |graph|)
      requires Books(graph, currComm, currDegrees, currSizes)
      ensures Valid()
    {
    }

    lemma ValidFacts()
      requires Valid()
      ensures Good(graph) && InRange(graph) && LabelsOk(graph, currComm, |graph|) && Books(graph, currComm, currDegrees, currSizes)
      ensures |currComm| == |graph| == |nodeWeightedDegrees| && |graph| < UNASSIGNED
      ensures forall u: nat :: u < |graph| && graph[u] != [] ==> currComm[u] < |graph|
      ensures forall u: nat :: u < |graph| ==> nodeWeightedDegrees[u] == OutWeight(graph[u])
    {
    }

    /** Adds up each node's edges and all of them. */
    static method WeightedDegrees(adj: Adj) returns (degrees: seq<nat>, total: nat)
      requires InRange(adj)
      ensures |degrees| == |adj| && forall x: nat :: x < |adj| ==> degrees[x] == OutWeight(adj[x])
      ensures total == Total(|adj|, Mat(adj))
    {
      hide Mat, OutWeight, InRange;
      degrees, total := [], 0;
      for u := 0 to |adj|
        invariant |degrees| == u
        invariant forall x: nat :: x < u ==> degrees[x] == OutWeight(adj[x])
        invariant total == Sum(u, Row(|adj|, Mat(adj)))
      {
        var d := ListWeight(adj[u]);
        DegreeIsOut(adj, u);
        degrees := degrees + [d];
        total := total + d;
      }
    }

    static method ListWeight(es: seq<Nbr>) returns (d: nat)
      ensures d == OutWeight(es)
    {
      d := 0;
      for i := 0 to |es|
        invariant d == OutWeight(es[..i])
      {
        assert es[..i + 1][..i] == es[..i];
        d := d + es[i].w;
      }
      assert es[..|es|] == es;
    }

    /** Every node, in any order, chooses its next community from the current labels; the changes to the
        community degrees and sizes accumulate as wrapping 64-bit words. */
    method RunIteration()
      requires Valid()
      modifies this`nextComm, this`nextDegrees, this`nextSizes, this`selfCommWeights
      ensures LabelsOk(graph, nextComm, |graph|) && Round(graph, currComm, nextComm)
      ensures Deltas(graph, currComm, nextComm, nextDegrees, nextSizes)
      ensures |selfCommWeights| == |graph|
      ensures forall u: nat :: u < |graph| ==> selfCommWeights[u] == Own(graph, currComm)(u)
    {
      hide *;
      var n := |graph|;
      ValidFacts();
      var dDeg, dSize, own, next := Zeros(n), Zeros(n), Zeros(n), Zeros(n);
      ghost var mix := currComm;
      DeltasStart(graph, currComm, dDeg, dSize);
      var todo := AllOffsets(n);
      while todo != {}
        invariant Valid()
        invariant |next| == |own| == |mix| == n == |dDeg| == |dSize| && todo <= NodeSet(n)
        invariant LabelsOk(graph, mix, n) && Deltas(graph, currComm, mix, dDeg, dSize)
        invariant forall u: nat :: u in todo ==> mix[u] == currComm[u]
        invariant forall u: nat :: u < n && u !in todo ==> mix[u] == next[u] && own[u] == Own(graph, currComm)(u)
        invariant forall u: nat :: u < n && u !in todo ==> Chosen(graph, currComm, u, next[u])
        decreases |todo|
      {
        var u: nat :| u in todo;
        todo := todo - {u};
        var target, ownWeight := ChooseComm(u);
        own := own[u := ownWeight];
        next := next[u := target];
        DeltasStep(graph, currComm, mix, u, target, dDeg, dSize, nodeWeightedDegrees[u]);
        LabelsMove(graph, mix, u, target);
        var currCommId := currComm[u];
        if target != currCommId && target != UNASSIGNED {
          dDeg := Apply(dDeg, currCommId, target, nodeWeightedDegrees[u]);
          dSize := Apply(dSize, currCommId, target, 1);
        }
        mix := mix[u := target];
      }
      assert mix == next;
      AllChose(graph, currComm, next);
      nextComm, nextDegrees, nextSizes, selfCommWeights := next, dDeg, dSize, own;
    }

    /** The community a node moves to (none for an isolated node) and its weight inside its own. */
    method ChooseComm(u: nat) returns (target: nat, own: nat)
      requires Valid() && u < |graph|
      ensures if graph[u] == [] then target == UNASSIGNED else target < |graph|
      ensures own == Own(graph, currComm)(u) && Chosen(graph, currComm, u, target)
      ensures graph[u] != [] && target == currComm[u] ==>
                || (forall i :: 0 <= i < |graph[u]| ==>
                      Mod(graph, currComm[u := currComm[graph[u][i].to]], |graph|) <= Mod(graph, currComm, |graph|))
                || (exists c: nat :: c < |graph| && SwapProtected(currSizes, currComm[u], c))
      ensures target != currComm[u] && graph[u] != [] ==> exists i :: 0 <= i < |graph[u]| && currComm[graph[u][i].to] == target
    {
      hide Mat, Total, Mod, WeightTo, SizeOf, DegOf, OutWeight, Sees, Picked, Chosen;
      target, own := UNASSIGNED, 0;
      if graph[u] != [] {
        var weights, selfLoop := IntraCommWeights(graph[u], u, currComm);
        WeightsSeen(graph, currComm, currDegrees, currSizes, u, weights, selfLoop);
        target := FindPotentialNewComm(graph, currComm, currDegrees, currSizes, totalWeight, nodeWeightedDegrees[u],
                                       u, weights, selfLoop);
        own := weights[currComm[u]];
        ChoiceMade(graph, currComm, currDegrees, currSizes, u, weights.Keys, target);
        if target == currComm[u] {
          StayReason(graph, currComm, currSizes, u, weights);
        }
      } else {
        IsolatedChoice(graph, currComm, u);
      }
    }

    /** The modularity of the current labels. */
    method ComputeModularity() returns (currMod: real)
      requires Valid() && |selfCommWeights| == |graph|
      requires forall u: nat :: u < |graph| ==> selfCommWeights[u] == Own(graph, currComm)(u)
      ensures currMod == Mod(graph, currComm, |graph|)
    {
      hide Good, LabelsOk, Mat, Total, OutWeight, WeightIn, DegOf, SizeOf, Own, CurrMod, Score, Intra, SumSq, Square, InRange, Wrap, Add64;
      var n := |graph|;
      var sumIntraWeights: nat, sumWeightedDegrees: nat := 0, 0;
      GoodFacts(graph);
      SizesAgree(graph, currComm);
      WrapSmall(0);
      for u := 0 to n
        invariant sumIntraWeights == Wrap(Sum(u, At(selfCommWeights)))
        invariant sumWeightedDegrees == Wrap(Sum(u, SquaresOf(currDegrees)))
      {
        AddDelta(Sum(u, At(selfCommWeights)), selfCommWeights[u]);
        sumIntraWeights := Add64(sumIntraWeights, selfCommWeights[u]);
        SquareIs(currDegrees[u]);
        AddDelta(Sum(u, SquaresOf(currDegrees)), currDegrees[u] * currDegrees[u]);
        sumWeightedDegrees := Add64(sumWeightedDegrees, currDegrees[u] * currDegrees[u]);
      }
      currMod := CurrMod(sumIntraWeights, sumWeightedDegrees, totalWeight);
      GoodFacts(graph);
      SumEq(n, At(selfCommWeights), Own(graph, currComm));
      OwnIsIntra(graph, currComm);
      BooksGiveSquares(graph, currComm, currDegrees, currSizes, SquaresOf(currDegrees));
      SumsFit(graph, currComm);
      WrapSmall(Intra(n, Mat(graph), Lab(currComm)));
      WrapSmall(SumSq(n, Mat(graph), Lab(currComm), n));
      CurrModIsScore(sumIntraWeights, sumWeightedDegrees, totalWeight);
    }

    /** The accepted labels become final unless the next ones do better: applies the accumulated changes
        and rotates the label arrays. */
    method AcceptIteration()
      requires Valid() && LabelsOk(graph, nextComm, |graph|) && Deltas(graph, currComm, nextComm, nextDegrees, nextSizes)
      modifies this`acceptedComm, this`currComm, this`nextComm, this`currDegrees, this`currSizes
      ensures Valid() && acceptedComm == old(currComm) && currComm == old(nextComm)
    {
      hide Good, LabelsOk, Add64, DegOf, SizeOf, OutWeight, Mat, Total, Wrap;
      var n := |graph|;
      var degrees: seq<nat>, sizes: seq<nat> := [], [];
      for c := 0 to n
        invariant |degrees| == |sizes| == c
        invariant forall x: nat :: x < c ==>
                    degrees[x] == Add64(currDegrees[x], nextDegrees[x]) && sizes[x] == Add64(currSizes[x], nextSizes[x])
      {
        degrees := degrees + [Add64(currDegrees[c], nextDegrees[c])];
        sizes := sizes + [Add64(currSizes[c], nextSizes[c])];
      }
      GoodFacts(graph);
      BooksMove(graph, currComm, nextComm, currDegrees, currSizes, nextDegrees, nextSizes, degrees, sizes);
      currDegrees, currSizes := degrees, sizes;
      acceptedComm, currComm, nextComm := currComm, nextComm, acceptedComm;
    }

    /** Numbers the accepted communities consecutively, in order of first appearance. */
    method RenumberCommunities() returns (count: nat)
      requires |acceptedComm| < UNASSIGNED
      modifies this`acceptedComm
      ensures Renumbered(old(acceptedComm), acceptedComm, count)
    {
      var names: map<nat, nat> := map[];
      count := 0;
      ghost var lab := acceptedComm;
      NamesStart(lab);
      hide Naming;
      for u := 0 to |acceptedComm|
        invariant |acceptedComm| == |lab| && acceptedComm[u..] == lab[u..]
        invariant Naming(lab, acceptedComm[..u], names, count)
      {
        var commId := acceptedComm[u];
        assert commId == lab[u..][0] == lab[u];
        ghost var done := acceptedComm[..u];
        if commId != UNASSIGNED {
          NamesMore(lab, done, names, count);
          if commId !in names {
            names := names[commId := count];
            count := count + 1;
          }
          acceptedComm := acceptedComm[u := names[commId]];
        } else {
          NamesSkip(lab, done, names, count);
        }
        assert acceptedComm[..u + 1] == done + [acceptedComm[u]];
      }
      assert acceptedComm[..|acceptedComm|] == acceptedComm;
      NamesEnd(lab, acceptedComm, names, count);
    }

    /** All iterations of a phase: rounds of choices that raise the modularity by the threshold each time,
        until one does not or the limit is reached. */
    method RunPhase(maxIterations: nat) returns (ghost labels: seq<seq<nat>>)
      requires Valid() && acceptedComm == currComm == Identity(|graph|)
      modifies this
      ensures Good(graph) && LabelsOk(graph, acceptedComm, |graph|)
      ensures Mod(graph, acceptedComm, |graph|) >= Mod(graph, Identity(|graph|), |graph|)
      ensures Phased(graph, maxIterations, labels, acceptedComm)
    {
      hide Good, LabelsOk, Books, Deltas, Mod, Own, Mat, Total, Climb, Round;
      var oldMod := -1.0;
      var iter := 0;
      labels := [currComm];
      ClimbStarts(graph);
      while iter < maxIterations
        invariant Valid() && iter <= maxIterations
        invariant |labels| == iter + 1 && currComm == labels[iter] && Climb(graph, labels)
        invariant iter == 0 ==> acceptedComm == currComm == Identity(|graph|) && oldMod == -1.0
        invariant iter > 0 ==> acceptedComm == labels[iter - 1] && oldMod == Mod(graph, acceptedComm, |graph|)
        invariant iter > 0 ==> oldMod >= Mod(graph, Identity(|graph|), |graph|)
      {
        RunIteration();
        var currMod := ComputeModularity();
        SingletonsAboveHalf(graph);
        if currMod - oldMod < THRESHOLD {
          break;
        }
        oldMod := currMod;
        ClimbMore(graph, labels, nextComm);
        labels := labels + [nextComm];
        AcceptIteration();
        iter := iter + 1;
      }
    }
  }

  /** Rounds of choices, each labelling before the last one better than the one before it by the threshold. */
  ghost predicate Climb(adj: Adj, labels: seq<seq<nat>>)
    requires Good(adj)
  {
    && labels != [] && labels[0] == Identity(|adj|)
    && (forall k: nat :: k + 1 < |labels| ==> Round(adj, labels[k], labels[k + 1]))
    && (forall k: nat :: k + 2 < |labels| ==> Mod(adj, labels[k + 1], |adj|) - Mod(adj, labels[k], |adj|) >= THRESHOLD)
  }

  /** The labellings of a phase. The accepted one is the last but one, the last one was not good enough or came
      after the last iteration; with no iteration at all it is the first. */
  ghost predicate Phased(adj: Adj, maxIterations: nat, labels: seq<seq<nat>>, accepted: seq<nat>)
    requires Good(adj)
  {
    && Climb(adj, labels)
    && if maxIterations == 0 then labels == [Identity(|adj|)] && accepted == Identity(|adj|)
       else
         && 2 <= |labels| <= maxIterations + 1 && accepted == labels[|labels| - 2]
         && (|labels| == maxIterations + 1 ||
             Mod(adj, labels[|labels| - 1], |adj|) - Mod(adj, accepted, |adj|) < THRESHOLD)
  }

  lemma ClimbStarts(adj: Adj)
    requires Good(adj)
    ensures Climb(adj, [Identity(|adj|)])
  {
  }

  lemma ClimbMore(adj: Adj, labels: seq<seq<nat>>, next: seq<nat>)
    requires Good(adj) && Climb(adj, labels) && Round(adj, labels[|labels| - 1], next)
    requires |labels| > 1 ==> Mod(adj, labels[|labels| - 1], |adj|) - Mod(adj, labels[|labels| - 2], |adj|) >= THRESHOLD
    ensures Climb(adj, labels + [next])
  {
    hide Good, Mod, Round;
    var all := labels + [next];
    forall k: nat | k + 1 < |all|
      ensures Round(adj, all[k], all[k + 1])
    {
      assert k + 1 < |labels| ==> all[k + 1] == labels[k + 1];
    }
    forall k: nat | k + 2 < |all|
      ensures Mod(adj, all[k + 1], |adj|) - Mod(adj, all[k], |adj|) >= THRESHOLD
    {
      assert k + 2 < |labels| ==> all[k + 2] == labels[k + 2];
    }
  }

  lemma AllChose(adj: Adj, lab: seq<nat>, next: seq<nat>)
    requires Good(adj) && |lab| == |adj| == |next| && forall u: nat :: u < |adj| ==> Chosen(adj, lab, u, next[u])
    ensures Round(adj, lab, next)
  {
  }

  lemma IsolatedChoice(adj: Adj, lab: seq<nat>, u: nat)
    requires Good(adj) && |lab| == |adj| && u < |adj| && adj[u] == []
    ensures Chosen(adj, lab, u, UNASSIGNED)
  {
  }

  lemma ChoiceMade(adj: Adj, lab: seq<nat>, degrees: seq<nat>, sizes: seq<nat>, u: nat, keys: set<nat>, target: nat)
    requires Good(adj) && InRange(adj) && Books(adj, lab, degrees, sizes) && |lab| == |adj| == |sizes| && u < |adj| && adj[u] != []
    requires forall c: nat :: c in keys <==> c == lab[u] || exists i :: 0 <= i < |adj[u]| && lab[adj[u][i].to] == c
    requires Picked(adj, lab, sizes, u, keys, target)
    ensures Chosen(adj, lab, u, target)
  {
    hide Decide, SizeOf, DegOf, Good, InRange, Visits, PickedBy, Books;
    assert keys == Around(adj, lab, u);
    var order: seq<nat> :| Visits(keys, order) && PickedBy(adj, lab, sizes, u, order, target);
    PickedIsChosen(adj, lab, degrees, sizes, u, order, target);
  }

  lemma PickedIsChosen(adj: Adj, lab: seq<nat>, degrees: seq<nat>, sizes: seq<nat>, u: nat, order: seq<nat>, target: nat)
    requires Good(adj) && InRange(adj) && Books(adj, lab, degrees, sizes) && |lab| == |adj| == |sizes| && u < |adj|
    requires Visits(Around(adj, lab, u), order) && PickedBy(adj, lab, sizes, u, order, target)
    ensures ChosenBy(adj, lab, u, target, order)
  {
    hide Decide, SizeOf, DegOf, Good, InRange, Visits, Around;
  }

  /** The same communities under the names below k, all of them in use, in order of first appearance. */
  ghost predicate Renumbered(lab: seq<nat>, lab': seq<nat>, k: nat) {
    && |lab'| == |lab| && k <= |lab|
    && (forall u: nat :: u < |lab| ==> if lab[u] == UNASSIGNED then lab'[u] == UNASSIGNED else lab'[u] < k)
    && (forall u: nat, v: nat :: u < |lab| && v < |lab| && lab[u] != UNASSIGNED && lab[v] != UNASSIGNED ==>
          (lab'[u] == lab'[v] <==> lab[u] == lab[v]))
    && (forall c: nat :: c < k ==> Appears(lab', |lab'|, c))
    && (forall u: nat, c: nat :: u < |lab| && lab[u] != UNASSIGNED && c < lab'[u] ==> Appears(lab', u, c))
  }

  /** The name is in use before position u. */
  ghost predicate Appears(lab: seq<nat>, u: nat, c: nat) {
    u <= |lab| && c in lab[..u]
  }

  /** The first labels are renamed, by the names given so far, in order of first appearance. */
  ghost predicate Naming(lab: seq<nat>, done: seq<nat>, names: map<nat, nat>, count: nat) {
    && |done| <= |lab| && count <= |done|
    && (forall c: nat :: c in names ==> names[c] < count)
    && (forall c: nat, d: nat :: c in names && d in names && names[c] == names[d] ==> c == d)
    && (forall x: nat :: x < |done| ==>
          if lab[x] == UNASSIGNED then done[x] == UNASSIGNED else lab[x] in names && done[x] == names[lab[x]])
    && (forall c: nat :: c < count ==> Appears(done, |done|, c))
    && (forall x: nat, c: nat :: x < |done| && lab[x] != UNASSIGNED && c < done[x] ==> Appears(done, x, c))
  }

  lemma NamesStart(lab: seq<nat>)
    ensures Naming(lab, lab[..0], map[], 0)
  {
  }

  lemma NamesEnd(lab: seq<nat>, done: seq<nat>, names: map<nat, nat>, count: nat)
    requires Naming(lab, done, names, count) && |done| == |lab|
    ensures Renumbered(lab, done, count)
  {
    hide Appears;
  }

  lemma AppearsMore(done: seq<nat>, c: nat)
    ensures forall u: nat, d: nat :: u <= |done| ==> (Appears(done + [c], u, d) <==> Appears(done, u, d))
    ensures forall d: nat :: Appears(done + [c], |done + [c]|, d) <==> d == c || Appears(done, |done|, d)
  {
    var all := done + [c];
    forall u: nat, d: nat | u <= |done|
      ensures Appears(all, u, d) <==> Appears(done, u, d)
    {
      assert all[..u] == done[..u];
    }
    forall d: nat
      ensures Appears(all, |all|, d) <==> d == c || Appears(done, |done|, d)
    {
      assert all[..|all|] == all && done[..|done|] == done;
    }
  }

  lemma NamesSkip(lab: seq<nat>, done: seq<nat>, names: map<nat, nat>, count: nat)
    requires Naming(lab, done, names, count) && |done| < |lab| && lab[|done|] == UNASSIGNED
    ensures Naming(lab, done + [UNASSIGNED], names, count)
  {
    AppearsMore(done, UNASSIGNED);
    hide Appears;
  }

  lemma NamesMore(lab: seq<nat>, done: seq<nat>, names: map<nat, nat>, count: nat)
    requires Naming(lab, done, names, count) && |done| < |lab| && lab[|done|] != UNASSIGNED
    ensures var c := lab[|done|];
            if c in names then Naming(lab, done + [names[c]], names, count)
            else Naming(lab, done + [count], names[c := count], count + 1)
  {
    var c := lab[|done|];
    AppearsMore(done, if c in names then names[c] else count);
    hide Appears;
  }

  lemma RenumberKeepsScore(adj: Adj, lab: seq<nat>, lab': seq<nat>, k: nat)
    requires Good(adj) && LabelsOk(adj, lab, |adj|) && Renumbered(lab, lab', k)
    ensures LabelsOk(adj, lab', k) && Mod(adj, lab', k) == Mod(adj, lab, |adj|)
  {
    var n, W := |adj|, Mat(adj);
    LabelsAreLabelled(adj, lab, n);
    LabelsAreLabelled(adj, lab', k);
    forall u: nat | u < n && Degrees(n, W)(u) != 0
      ensures adj[u] != []
    {
      DegreeIsOut(adj, u);
    }
    forall u: nat, v: nat | u < n && v < n && W(u, v) != 0
      ensures adj[u] != [] && adj[v] != []
    {
      assert W(u, v) == W(v, u);
    }
    hide Degrees, Mat;
    SamePartitionSameScore(n, W, Lab(lab'), k, Lab(lab), n);
  }

  lemma GoodFacts(adj: Adj)
    requires Good(adj)
    ensures InRange(adj) && Total(|adj|, Mat(adj)) > 0 && |adj| < UNASSIGNED
  {
  }

  lemma SizesAgree(adj: Adj, lab: seq<nat>)
    requires LabelsOk(adj, lab, |adj|)
    ensures |lab| == |adj| && forall u: nat :: u < |adj| && adj[u] != [] ==> lab[u] < |adj|
  {
  }

  lemma SquareIs(x: int)
    ensures Square(x) == x * x
  {
  }

  lemma BooksStart(adj: Adj, degrees: seq<nat>, sizes: seq<nat>)
    requires InRange(adj) && |degrees| == |adj| == |sizes|
    requires forall u: nat :: u < |adj| ==> degrees[u] == OutWeight(adj[u]) && sizes[u] == 1
    ensures Books(adj, Identity(|adj|), degrees, sizes)
  {
    var L := Lab(Identity(|adj|));
    forall c: nat | c < |adj|
      ensures degrees[c] == DegOf(adj, Identity(|adj|), c)
      ensures sizes[c] == SizeOf(adj, Identity(|adj|), c) + (if adj[c] == [] then 1 else 0)
    {
      DegreeIsOut(adj, c);
      SumHit(|adj|, c, OfClass(L, Degrees(|adj|, Mat(adj)), c));
      SumHit(|adj|, c, OfClass(L, Ones(adj), c));
    }
  }

  function Zeros(n: nat): (s: seq<nat>)
    ensures |s| == n && forall i :: 0 <= i < n ==> s[i] == 0
  {
    seq(n, _ => 0)
  }

  lemma LabelsMove(adj: Adj, lab: seq<nat>, u: nat, d: nat)
    requires LabelsOk(adj, lab, |adj|) && u < |adj| && (if adj[u] == [] then d == UNASSIGNED else d < |adj|)
    ensures |lab| == |adj| && LabelsOk(adj, lab[u := d], |adj|)
  {
  }

  /** Staying put, in terms of the neighbours' communities. */
  lemma StayReason(adj: Adj, lab: seq<nat>, sizes: seq<nat>, u: nat, weights: map<nat, nat>)
    requires Good(adj) && |lab| == |adj| == |sizes| && u < |adj| && lab[u] < |adj|
    requires forall c: nat :: c in weights ==> c < |adj|
    requires forall i :: 0 <= i < |adj[u]| ==> adj[u][i].to < |adj| && lab[adj[u][i].to] in weights
    requires || (forall c: nat :: c in weights && c != lab[u] ==> Mod(adj, lab[u := c], |adj|) <= Mod(adj, lab, |adj|))
             || (exists c: nat :: c in weights && SwapProtected(sizes, lab[u], c))
    ensures || (forall i :: 0 <= i < |adj[u]| ==> Mod(adj, lab[u := lab[adj[u][i].to]], |adj|) <= Mod(adj, lab, |adj|))
            || (exists c: nat :: c < |adj| && SwapProtected(sizes, lab[u], c))
  {
    hide Mod, Good;
    assert lab[u := lab[u]] == lab;
  }

  lemma DeltasStart(adj: Adj, lab: seq<nat>, dDeg: seq<nat>, dSize: seq<nat>)
    requires |dDeg| == |adj| == |dSize| && forall c: nat :: c < |adj| ==> dDeg[c] == 0 && dSize[c] == 0
    ensures Deltas(adj, lab, lab, dDeg, dSize)
  {
  }

  lemma WeightsSeen(adj: Adj, lab: seq<nat>, degrees: seq<nat>, sizes: seq<nat>, u: nat, weights: map<nat, nat>, selfLoop: nat)
    requires Good(adj) && LabelsOk(adj, lab, |adj|) && Books(adj, lab, degrees, sizes) && u < |adj| && adj[u] != []
    requires selfLoop == WeightTo(adj[u], u)
    requires forall c: nat :: c in weights <==> c == lab[u] || exists i :: 0 <= i < |adj[u]| && lab[adj[u][i].to] == c
    requires forall c: nat :: c in weights ==> weights[c] == WeightIn(adj[u], lab, c)
    ensures Sees(adj, lab, degrees, sizes, u, weights, selfLoop)
  {
    forall c: nat | c in weights
      ensures c < |adj|
    {
      if c != lab[u] {
        var i :| 0 <= i < |adj[u]| && lab[adj[u][i].to] == c;
        NeighbourLabelled(adj, lab, |adj|, u, i);
      }
    }
  }

  // ------------------------------------------------------------------ merging communities

  ghost function FromTo(adj: Adj, lab: seq<nat>, c: nat, d: nat): (r: nat -> int)
    requires InRange(adj) && |lab| == |adj|
    ensures forall u: nat :: r(u) == if u < |adj| && lab[u] == c then WeightIn(adj[u], lab, d) else 0
  {
    (u: nat) => if u < |adj| && lab[u] == c then WeightIn(adj[u], lab, d) else 0
  }

  /** Weight from community c to d over the first u nodes and the first i entries of the next one. */
  ghost function Seen(adj: Adj, lab: seq<nat>, u: nat, i: nat, c: nat, d: nat): int
    requires InRange(adj) && |lab| == |adj| && u <= |adj| && (u == |adj| ==> i == 0) && (u < |adj| ==> i <= |adj[u]|)
  {
    Sum(u, FromTo(adj, lab, c, d)) + (if u < |adj| && lab[u] == c then WeightIn(adj[u][..i], lab, d) else 0)
  }

  function Get(m: map<nat, nat>, d: nat): nat {
    if d in m then m[d] else 0
  }

  /** Only the larger of the two communities collects; the other mirrors it. */
  ghost predicate Collected(adj: Adj, lab: seq<nat>, u: nat, i: nat, k: nat, cw: seq<map<nat, nat>>)
    requires InRange(adj) && |lab| == |adj| && u <= |adj| && (u == |adj| ==> i == 0) && (u < |adj| ==> i <= |adj[u]|)
  {
    && PositiveBelow(k, cw)
    && |cw| == k
    && forall c: nat, d: nat :: c < k && d < k ==>
      Get(cw[c], d) == if c >= d then Seen(adj, lab, u, i, c, d) else Seen(adj, lab, u, i, d, c)
  }

  lemma SeenEntry(adj: Adj, lab: seq<nat>, u: nat, i: nat, c: nat, d: nat)
    requires InRange(adj) && |lab| == |adj| && u < |adj| && i < |adj[u]|
    ensures Seen(adj, lab, u, i + 1, c, d) == Seen(adj, lab, u, i, c, d) +
              (if lab[u] == c && lab[adj[u][i].to] == d then adj[u][i].w else 0)
  {
    assert adj[u][..i + 1][..i] == adj[u][..i];
  }

  lemma SeenNode(adj: Adj, lab: seq<nat>, u: nat, c: nat, d: nat)
    requires InRange(adj) && |lab| == |adj| && u < |adj|
    ensures Seen(adj, lab, u + 1, 0, c, d) == Seen(adj, lab, u, |adj[u]|, c, d)
  {
    assert adj[u][..|adj[u]|] == adj[u];
    assert u + 1 < |adj| ==> adj[u + 1][..0] == [];
  }

  function AddTo(cw: seq<map<nat, nat>>, c: nat, d: nat, w: nat): (r: seq<map<nat, nat>>)
    requires c < |cw|
    ensures |r| == |cw|
  {
    var m: map<nat, nat> := cw[c][d := Get(cw[c], d) + w];
    cw[c := m]
  }

  lemma AddToGets(cw: seq<map<nat, nat>>, c: nat, d: nat, w: nat, a: nat, b: nat)
    requires c < |cw| && a < |cw|
    ensures Get(AddTo(cw, c, d, w)[a], b) == Get(cw[a], b) + (if a == c && b == d then w else 0)
  {
  }

  ghost predicate PositiveBelow(k: nat, cw: seq<map<nat, nat>>) {
    |cw| == k && forall c: nat, d: nat :: c < k && d in cw[c] ==> d < k && cw[c][d] > 0
  }

  lemma AddToPositive(k: nat, cw: seq<map<nat, nat>>, c: nat, d: nat, w: nat)
    requires PositiveBelow(k, cw) && c < k && d < k && w > 0
    ensures PositiveBelow(k, AddTo(cw, c, d, w))
  {
  }

  /** What one entry adds to the collected weights. */
  function WithEntry(cw: seq<map<nat, nat>>, c: nat, d: nat, w: nat): (r: seq<map<nat, nat>>)
    requires c < |cw| && d < |cw|
    ensures |r| == |cw|
  {
    if c < d then cw else if c == d then AddTo(cw, c, d, w) else AddTo(AddTo(cw, c, d, w), d, c, w)
  }

  lemma WithEntryGets(cw: seq<map<nat, nat>>, c: nat, d: nat, w: nat, a: nat, b: nat)
    requires c < |cw| && d < |cw| && a < |cw|
    ensures Get(WithEntry(cw, c, d, w)[a], b) ==
            Get(cw[a], b) + (if c >= d && ((a == c && b == d) || (a == d && b == c)) then w else 0)
  {
    hide AddTo, Get;
    AddToGets(cw, c, d, w, a, b);
    AddToGets(AddTo(cw, c, d, w), d, c, w, a, b);
  }

  lemma CollectEntry(adj: Adj, lab: seq<nat>, u: nat, i: nat, k: nat, cw: seq<map<nat, nat>>)
    requires InRange(adj) && |lab| == |adj| && u < |adj| && i < |adj[u]| && Collected(adj, lab, u, i, k, cw)
    requires lab[u] < k && lab[adj[u][i].to] < k
    ensures Collected(adj, lab, u, i + 1, k, WithEntry(cw, lab[u], lab[adj[u][i].to], adj[u][i].w))
  {
    hide Seen, AddTo, Get, PositiveBelow;
    var c, d, w := lab[u], lab[adj[u][i].to], adj[u][i].w;
    var cw' := WithEntry(cw, c, d, w);
    AddToPositive(k, cw, c, d, w);
    if c > d {
      AddToPositive(k, AddTo(cw, c, d, w), d, c, w);
    }
    assert PositiveBelow(k, cw');
    hide WithEntry;
    forall a: nat, b: nat | a < k && b < k
      ensures Get(cw'[a], b) == if a >= b then Seen(adj, lab, u, i + 1, a, b) else Seen(adj, lab, u, i + 1, b, a)
    {
      WithEntryGets(cw, c, d, w, a, b);
      SeenEntry(adj, lab, u, i, a, b);
      SeenEntry(adj, lab, u, i, b, a);
    }
  }

  lemma CollectStart(adj: Adj, lab: seq<nat>, k: nat, cw: seq<map<nat, nat>>)
    requires InRange(adj) && |lab| == |adj| && |cw| == k && forall c: nat :: c < k ==> cw[c] == map[]
    ensures Collected(adj, lab, 0, 0, k, cw)
  {
    assert |adj| > 0 ==> adj[0][..0] == [];
  }

  lemma CollectNode(adj: Adj, lab: seq<nat>, u: nat, k: nat, cw: seq<map<nat, nat>>)
    requires InRange(adj) && |lab| == |adj| && u < |adj| && Collected(adj, lab, u, |adj[u]|, k, cw)
    ensures Collected(adj, lab, u + 1, 0, k, cw)
  {
    hide Seen;
    forall a: nat, b: nat
      ensures Seen(adj, lab, u + 1, 0, a, b) == Seen(adj, lab, u, |adj[u]|, a, b)
    {
      SeenNode(adj, lab, u, a, b);
    }
  }

  /** Everything collected is the aggregated matrix. */
  lemma SeenIsAggregate(adj: Adj, lab: seq<nat>, c: nat, d: nat)
    requires InRange(adj) && |lab| == |adj|
    ensures Seen(adj, lab, |adj|, 0, c, d) == Aggregate(|adj|, Mat(adj), Lab(lab))(c, d)
  {
    var n, W, L := |adj|, Mat(adj), Lab(lab);
    forall u: nat | u < n
      ensures Row(n, Between(W, L, c, d))(u) == FromTo(adj, lab, c, d)(u)
    {
      if lab[u] == c {
        ListIsRow(n, adj[u], lab, d);
        forall v: nat | v < n
          ensures OfClass(L, ToRow(adj[u]), d)(v) == Between(W, L, c, d)(u, v)
        {
          assert W(u, v) == WeightTo(adj[u], v) && L(u) == lab[u];
        }
        SumEq(n, OfClass(L, ToRow(adj[u]), d), (v: nat) => Between(W, L, c, d)(u, v));
      } else {
        var none: nat -> int := (v: nat) => Between(W, L, c, d)(u, v);
        assert forall v: nat :: none(v) == Between(W, L, c, d)(u, v) == 0;
        SumZero(n, none);
      }
    }
    SumEq(n, Row(n, Between(W, L, c, d)), FromTo(adj, lab, c, d));
  }

  /** One entry per neighbouring community, in any order. */
  method MapToList(m: map<nat, nat>) returns (es: seq<Nbr>)
    ensures forall d: nat :: WeightTo(es, d) == Get(m, d)
    ensures forall i :: 0 <= i < |es| ==> es[i].to in m && es[i].w == m[es[i].to]
  {
    es := [];
    var todo := m.Keys;
    while todo != {}
      invariant todo <= m.Keys
      invariant forall d: nat :: WeightTo(es, d) == if d in todo then 0 else Get(m, d)
      invariant forall i :: 0 <= i < |es| ==> es[i].to in m && es[i].w == m[es[i].to]
      decreases |todo|
    {
      var d :| d in todo;
      todo := todo - {d};
      ghost var before := es;
      es := es + [Nbr(d, m[d])];
      assert es[..|es| - 1] == before;
    }
  }

  /** Weights between communities; only edges towards a smaller or equal community are looked at. */
  method CommWeights(adj: Adj, lab: seq<nat>, k: nat) returns (cw: seq<map<nat, nat>>)
    requires Good(adj) && LabelsOk(adj, lab, k)
    ensures InRange(adj) && |lab| == |adj| && |cw| == k && Collected(adj, lab, |adj|, 0, k, cw)
  {
    hide Good, LabelsOk, Collected, Get;
    GoodFacts(adj);
    LabelsFacts(adj, lab, k);
    cw := seq(k, _ => map[]);
    CollectStart(adj, lab, k, cw);
    for u := 0 to |adj|
      invariant |cw| == k && Collected(adj, lab, u, 0, k, cw)
    {
      cw := CollectFrom(adj, lab, k, u, cw);
      CollectNode(adj, lab, u, k, cw);
    }
  }

  method CollectFrom(adj: Adj, lab: seq<nat>, k: nat, u: nat, before: seq<map<nat, nat>>) returns (cw: seq<map<nat, nat>>)
    requires Good(adj) && LabelsOk(adj, lab, k) && u < |adj| && InRange(adj) && |lab| == |adj|
    requires |before| == k && Collected(adj, lab, u, 0, k, before)
    ensures |cw| == k && Collected(adj, lab, u, |adj[u]|, k, cw)
  {
    hide Good, Collected, AddTo, Get;
    cw := before;
    for i := 0 to |adj[u]|
      invariant |cw| == k && Collected(adj, lab, u, i, k, cw)
    {
      NeighbourLabelled(adj, lab, k, u, i);
      CollectEntry(adj, lab, u, i, k, cw);
      var commId, nbr := lab[u], adj[u][i];
      var nbrCommId := lab[nbr.to];
      if commId >= nbrCommId {
        cw := AddTo(cw, commId, nbrCommId, nbr.w);
        if commId != nbrCommId {
          cw := AddTo(cw, nbrCommId, commId, nbr.w);
        }
      }
    }
  }

  /** The graph whose nodes are the communities: its weights are the weights between them. */
  method AggregateCommunities(adj: Adj, lab: seq<nat>, k: nat) returns (next: Adj)
    requires Good(adj) && LabelsOk(adj, lab, k) && k < UNASSIGNED
    ensures |next| == k && Good(next)
    ensures forall c: nat, d: nat :: c < k && d < k ==> Mat(next)(c, d) == Aggregate(|adj|, Mat(adj), Lab(lab))(c, d)
  {
    hide Good, LabelsOk, Collected, Mat, Aggregate, Lab, InRange;
    var cw := CommWeights(adj, lab, k);
    next := [];
    for c := 0 to k
      invariant |next| == c
      invariant forall a: nat, d: nat :: a < c ==> WeightTo(next[a], d) == Get(cw[a], d)
      invariant forall a: nat, i: nat :: a < c && i < |next[a]| ==> next[a][i].to in cw[a] && next[a][i].w == cw[a][next[a][i].to]
    {
      var es := MapToList(cw[c]);
      next := next + [es];
    }
    AggregateIsGood(adj, lab, k, cw, next);
  }

  lemma LabelsFacts(adj: Adj, lab: seq<nat>, k: nat)
    requires LabelsOk(adj, lab, k)
    ensures |lab| == |adj| && forall u: nat :: u < |adj| && adj[u] != [] ==> lab[u] < k
  {
  }

  lemma CollectedIsAggregate(adj: Adj, lab: seq<nat>, k: nat, cw: seq<map<nat, nat>>, c: nat, d: nat)
    requires Good(adj) && LabelsOk(adj, lab, k) && Collected(adj, lab, |adj|, 0, k, cw) && c < k && d < k
    ensures Get(cw[c], d) == Aggregate(|adj|, Mat(adj), Lab(lab))(c, d) == Aggregate(|adj|, Mat(adj), Lab(lab))(d, c)
  {
    hide Seen, Aggregate, Mat;
    SeenIsAggregate(adj, lab, c, d);
    SeenIsAggregate(adj, lab, d, c);
    AggregateSymmetric(|adj|, Mat(adj), Lab(lab), c, d);
  }

  lemma NextInRange(k: nat, cw: seq<map<nat, nat>>, next: Adj)
    requires |next| == k == |cw| && forall c: nat, d: nat :: c < k && d in cw[c] ==> d < k && cw[c][d] > 0
    requires forall a: nat, i: nat :: a < k && i < |next[a]| ==> next[a][i].to in cw[a] && next[a][i].w == cw[a][next[a][i].to]
    ensures InRange(next)
  {
  }

  lemma CollectedEntries(adj: Adj, lab: seq<nat>, k: nat, cw: seq<map<nat, nat>>)
    requires InRange(adj) && |lab| == |adj| && Collected(adj, lab, |adj|, 0, k, cw)
    ensures |cw| == k && forall c: nat, d: nat :: c < k && d in cw[c] ==> d < k && cw[c][d] > 0
  {
  }

  lemma AggregateIsGood(adj: Adj, lab: seq<nat>, k: nat, cw: seq<map<nat, nat>>, next: Adj)
    requires Good(adj) && LabelsOk(adj, lab, k) && k < UNASSIGNED && |next| == k == |cw| && Collected(adj, lab, |adj|, 0, k, cw)
    requires forall a: nat, d: nat :: a < k ==> WeightTo(next[a], d) == Get(cw[a], d)
    requires forall a: nat, i: nat :: a < k && i < |next[a]| ==> next[a][i].to in cw[a] && next[a][i].w == cw[a][next[a][i].to]
    ensures Good(next)
    ensures forall c: nat, d: nat :: c < k && d < k ==> Mat(next)(c, d) == Aggregate(|adj|, Mat(adj), Lab(lab))(c, d)
  {
    hide Collected, Aggregate, Get, Sum2, Lab, WeightTo;
    var A := Aggregate(|adj|, Mat(adj), Lab(lab));
    forall c: nat, d: nat | c < k && d < k
      ensures Mat(next)(c, d) == A(c, d) == A(d, c)
    {
      CollectedIsAggregate(adj, lab, k, cw, c, d);
    }
    CollectedEntries(adj, lab, k, cw);
    NextInRange(k, cw, next);
    LabelsAreLabelled(adj, lab, k);
    AggregateTotal(|adj|, Mat(adj), Lab(lab), k);
    Sum2Eq(k, Mat(next), A);
  }

  // ------------------------------------------------------------------ all phases

  /** Labels of the first graph's nodes through the labels M of the nodes they were merged into. */
  function Compose(lab: seq<nat>, M: seq<nat>): (r: seq<nat>)
    requires forall u :: 0 <= u < |lab| ==> lab[u] < |M| || lab[u] == UNASSIGNED
    ensures |r| == |lab| && forall u: nat :: u < |lab| ==> r[u] == if lab[u] == UNASSIGNED then UNASSIGNED else Relabel(M, lab[u])
  {
    seq(|lab|, u requires 0 <= u < |lab| => if lab[u] == UNASSIGNED then UNASSIGNED else Relabel(M, lab[u]))
  }

  function Relabel(M: seq<nat>, c: nat): nat {
    if c < |M| then M[c] else UNASSIGNED
  }

  /** lab says which node of the merged graph each first node became: nodes with edges became nodes with
      edges, and every labelling of the merged graph scores what it scores on the first graph. */
  ghost predicate MergedFrom(first: Adj, adj: Adj, lab: seq<nat>)
    requires Good(first) && Good(adj)
  {
    && LabelsOk(first, lab, |adj|) && |adj| <= |first|
    && (forall u: nat :: u < |first| && first[u] != [] ==> adj[lab[u]] != [])
    && forall M: seq<nat>, K: nat :: LabelsOk(adj, M, K) ==> Mod(adj, M, K) == Mod(first, Compose(lab, M), K)
  }

  lemma MergedFromSelf(adj: Adj)
    requires Good(adj)
    ensures MergedFrom(adj, adj, Identity(|adj|))
  {
    hide Mod, Good;
    GoodFacts(adj);
    forall M: seq<nat>, K: nat | LabelsOk(adj, M, K)
      ensures Compose(Identity(|adj|), M) == M
    {
    }
  }

  /** More names than needed change no score. */
  lemma WiderScore(adj: Adj, lab: seq<nat>, k: nat, K: nat)
    requires Good(adj) && LabelsOk(adj, lab, k) && k <= K
    ensures LabelsOk(adj, lab, K) && Mod(adj, lab, k) == Mod(adj, lab, K)
  {
    hide Mat, Lab;
    LabelsAreLabelled(adj, lab, k);
    LabelsAreLabelled(adj, lab, K);
    SamePartitionSameScore(|adj|, Mat(adj), Lab(lab), k, Lab(lab), K);
  }

  ghost predicate IsAggregate(adj: Adj, acc: seq<nat>, next: Adj) {
    forall c: nat, d: nat :: c < |next| && d < |next| ==> Mat(next)(c, d) == Aggregate(|adj|, Mat(adj), Lab(acc))(c, d)
  }

  lemma {:induction false} RowNonneg(n: nat, F: Matrix, u: nat, v: nat)
    requires u < n && v < n && forall x: nat, y: nat :: x < n && y < n ==> F(x, y) >= 0
    ensures Sum2(n, F) >= F(u, v)
  {
    forall x: nat | x < n
      ensures Row(n, F)(x) >= 0 && (x == u ==> Row(n, F)(x) >= F(u, v))
    {
      var row: nat -> int := (y: nat) => F(x, y);
      assert forall y: nat :: row(y) == F(x, y);
      SumNonneg(n, row);
      SumEq(n, row, (y: nat) => F(x, y));
      assert x == u ==> row(v) == F(u, v);
    }
    var rows := Row(n, F);
    SumNonneg(n, rows);
    assert rows(u) <= Sum(n, rows);
  }

  /** A community with edges becomes a node with edges. */
  lemma EdgesSurvive(adj: Adj, acc: seq<nat>, next: Adj, u: nat)
    requires Good(adj) && LabelsOk(adj, acc, |next|) && IsAggregate(adj, acc, next) && u < |adj| && adj[u] != []
    ensures acc[u] < |next| && next[acc[u]] != []
  {
    hide Aggregate, LabelsOk;
    LabelsFacts(adj, acc, |next|);
    EntryWeighs(adj[u], 0);
    var v := adj[u][0].to;
    NeighbourLabelled(adj, acc, |next|, u, 0);
    AggregateWeighs(adj, acc, u, v);
    assert Mat(next)(acc[u], acc[v]) > 0;
  }

  lemma AggregateWeighs(adj: Adj, acc: seq<nat>, u: nat, v: nat)
    requires u < |adj| == |acc| && v < |adj|
    ensures Aggregate(|adj|, Mat(adj), Lab(acc))(acc[u], acc[v]) >= WeightTo(adj[u], v)
  {
    var B := Between(Mat(adj), Lab(acc), acc[u], acc[v]);
    RowNonneg(|adj|, B, u, v);
  }

  lemma AggregateScore(adj: Adj, acc: seq<nat>, next: Adj, M: seq<nat>, K: nat)
    requires Good(adj) && Good(next) && LabelsOk(adj, acc, |next|) && IsAggregate(adj, acc, next)
    ensures Mod(next, M, K) == Modularity(|adj|, Mat(adj), Through(Lab(acc), Lab(M)), K)
  {
    hide LabelsOk, Modularity, Aggregate, Lab, Through, Good;
    GoodFacts(adj);
    GoodFacts(next);
    LabelsAreLabelled(adj, acc, |next|);
    AggregatePreservesModularity(|adj|, Mat(adj), Lab(acc), |next|, Lab(M), K);
    SameMatrixSameScore(|next|, Mat(next), Aggregate(|adj|, Mat(adj), Lab(acc)), Lab(M), K);
  }

  lemma SameMatrixSameScore(n: nat, V: Matrix, W: Matrix, L: Labels, k: nat)
    requires forall u: nat, v: nat :: u < n && v < n ==> V(u, v) == W(u, v)
    requires Total(n, V) > 0 && Total(n, W) > 0
    ensures Modularity(n, V, L, k) == Modularity(n, W, L, k)
  {
    Sum2Eq(n, V, W);
    Sum2Eq(n, Inside(V, L), Inside(W, L));
    forall u: nat | u < n
      ensures Degrees(n, V)(u) == Degrees(n, W)(u)
    {
      SumEq(n, (v: nat) => V(u, v), (v: nat) => W(u, v));
    }
    forall x: nat | x < k
      ensures Squares(n, V, L)(x) == Squares(n, W, L)(x)
    {
      SumEq(n, OfClass(L, Degrees(n, V), x), OfClass(L, Degrees(n, W), x));
    }
    SumEq(k, Squares(n, V, L), Squares(n, W, L));
  }

  /** Labelling the merged graph is labelling the graph it came from. */
  lemma OneMerge(adj: Adj, acc: seq<nat>, next: Adj, M: seq<nat>, K: nat)
    requires Good(adj) && Good(next) && LabelsOk(adj, acc, |next|) && IsAggregate(adj, acc, next) && LabelsOk(next, M, K)
    ensures LabelsOk(adj, Compose(acc, M), K) && Mod(next, M, K) == Mod(adj, Compose(acc, M), K)
  {
    var n, W, C := |adj|, Mat(adj), Compose(acc, M);
    ComposeOk(adj, acc, next, M, K);
    hide Mat, Modularity, IsAggregate, LabelsOk, Good, Lab, Through;
    GoodFacts(adj);
    AggregateScore(adj, acc, next, M, K);
    LabelsAreLabelled(adj, C, K);
    SameWhereEdges(adj, acc, next, M, K);
    ScoreByEdges(adj, Through(Lab(acc), Lab(M)), Lab(C), K);
  }

  lemma ComposeOk(adj: Adj, acc: seq<nat>, next: Adj, M: seq<nat>, K: nat)
    requires Good(adj) && LabelsOk(adj, acc, |next|) && IsAggregate(adj, acc, next) && LabelsOk(next, M, K)
    requires |next| < UNASSIGNED
    ensures LabelsOk(adj, Compose(acc, M), K)
  {
    hide IsAggregate, Good;
    forall u: nat | u < |adj|
      ensures Compose(acc, M)[u] < K || (Compose(acc, M)[u] == UNASSIGNED && adj[u] == [])
    {
      if adj[u] != [] {
        EdgesSurvive(adj, acc, next, u);
      }
    }
  }

  lemma SameWhereEdges(adj: Adj, acc: seq<nat>, next: Adj, M: seq<nat>, K: nat)
    requires LabelsOk(adj, acc, |next|) && LabelsOk(next, M, K) && |next| < UNASSIGNED
    ensures forall u: nat :: u < |adj| && adj[u] != [] ==> Through(Lab(acc), Lab(M))(u) == Lab(Compose(acc, M))(u)
  {
    forall u: nat | u < |adj| && adj[u] != []
      ensures Through(Lab(acc), Lab(M))(u) == Lab(Compose(acc, M))(u)
    {
      assert Lab(acc)(u) == acc[u] && Lab(M)(acc[u]) == M[acc[u]];
    }
  }

  /** Only the labels of nodes with edges matter. */
  lemma ScoreByEdges(adj: Adj, L: Labels, M: Labels, k: nat)
    requires Good(adj) && Labelled(|adj|, Mat(adj), M, k)
    requires forall u: nat :: u < |adj| && adj[u] != [] ==> L(u) == M(u)
    ensures Modularity(|adj|, Mat(adj), L, k) == Modularity(|adj|, Mat(adj), M, k)
  {
    var n, W := |adj|, Mat(adj);
    forall u: nat | u < n && Degrees(n, W)(u) != 0
      ensures adj[u] != []
    {
      DegreeIsOut(adj, u);
    }
    forall u: nat, v: nat | u < n && v < n && W(u, v) != 0
      ensures adj[u] != [] && adj[v] != []
    {
      assert W(u, v) == W(v, u);
    }
    hide Degrees, Mat;
    SamePartitionSameScore(n, W, L, k, M, k);
  }

  lemma MergedStep(first: Adj, adj: Adj, lab: seq<nat>, acc: seq<nat>, next: Adj)
    requires Good(first) && Good(adj) && Good(next) && MergedFrom(first, adj, lab)
    requires LabelsOk(adj, acc, |next|) && |next| <= |adj| && IsAggregate(adj, acc, next)
    ensures MergedFrom(first, next, Compose(lab, acc))
  {
    hide Mod, Good, IsAggregate;
    GoodFacts(adj);
    forall u: nat | u < |adj| && adj[u] != []
      ensures acc[u] < |next| && next[acc[u]] != []
    {
      EdgesSurvive(adj, acc, next, u);
    }
    GoodFacts(next);
    var both := Compose(lab, acc);
    forall M: seq<nat>, K: nat | LabelsOk(next, M, K)
      ensures Mod(next, M, K) == Mod(first, Compose(both, M), K)
    {
      OneMerge(adj, acc, next, M, K);
      assert Compose(lab, Compose(acc, M)) == Compose(both, M);
    }
  }

  /** What one phase does to the labels of the first graph. */
  lemma PhaseScore(first: Adj, adj: Adj, lab: seq<nat>, acc: seq<nat>, k: nat)
    requires Good(first) && Good(adj) && MergedFrom(first, adj, lab) && LabelsOk(adj, acc, k) && k <= |adj|
    requires Mod(adj, acc, k) >= Mod(adj, Identity(|adj|), |adj|)
    ensures LabelsOk(first, Compose(lab, acc), |first|)
    ensures Mod(first, Compose(lab, acc), |first|) >= Mod(first, lab, |first|)
  {
    hide Mod, Good;
    GoodFacts(adj);
    IdentityOk(adj);
    assert Compose(lab, Identity(|adj|)) == lab;
    WiderScore(first, lab, |adj|, |first|);
    var r := Compose(lab, acc);
    assert LabelsOk(first, r, k);
    WiderScore(first, r, k, |first|);
  }

  lemma MergedLabels(first: Adj, adj: Adj, lab: seq<nat>)
    requires Good(first) && Good(adj) && MergedFrom(first, adj, lab)
    ensures |lab| == |first| && forall u: nat :: u < |lab| ==> lab[u] < |adj| || lab[u] == UNASSIGNED
  {
  }

  /** What a phase did: its graph, the labellings it went through, the accepted one, and its renumbering. */
  datatype PhaseLog = PhaseLog(adj: Adj, labels: seq<seq<nat>>, accepted: seq<nat>, names: seq<nat>, count: nat)

  ghost predicate LogOk(maxIterations: nat, log: PhaseLog) {
    && Good(log.adj) && Phased(log.adj, maxIterations, log.labels, log.accepted)
    && |log.accepted| == |log.adj| && Renumbered(log.accepted, log.names, log.count)
  }

  /** Where a node of the first graph ends up. */
  ghost function Follow(logs: seq<PhaseLog>, u: nat): nat {
    if logs == [] then u
    else
      var c := Follow(logs[..|logs| - 1], u);
      if c == UNASSIGNED then UNASSIGNED else Relabel(logs[|logs| - 1].names, c)
  }

  /** Phases in a row, each on the graph whose nodes are the communities of the phase before. */
  ghost predicate Phases(first: Adj, maxIterations: nat, logs: seq<PhaseLog>) {
    && (forall p: nat :: p < |logs| ==> LogOk(maxIterations, logs[p]))
    && (logs != [] ==> logs[0].adj == first)
    && (forall p: nat :: p + 1 < |logs| ==> Merges(logs[p], logs[p + 1].adj))
  }

  /** The communities of the phase are the nodes of the next graph, and fewer than the nodes of its own. */
  ghost predicate Merges(log: PhaseLog, next: Adj) {
    log.count < |log.adj| && |next| == log.count && IsAggregate(log.adj, log.names, next)
  }

  lemma PhasesMore(first: Adj, maxIterations: nat, logs: seq<PhaseLog>, log: PhaseLog)
    requires Phases(first, maxIterations, logs) && LogOk(maxIterations, log)
    requires if logs == [] then log.adj == first else Merges(logs[|logs| - 1], log.adj)
    ensures Phases(first, maxIterations, logs + [log])
  {
    hide LogOk, Merges;
    var all := logs + [log];
    forall p: nat | p + 1 < |all|
      ensures Merges(all[p], all[p + 1].adj)
    {
      assert p + 1 < |logs| ==> all[p + 1] == logs[p + 1];
    }
  }

  lemma FollowMore(first: Adj, logs: seq<PhaseLog>, log: PhaseLog, lab: seq<nat>)
    requires forall u: nat :: u < |lab| ==> lab[u] == Follow(logs, u)
    requires forall u :: 0 <= u < |lab| ==> lab[u] < |log.names| || lab[u] == UNASSIGNED
    ensures forall u: nat :: u < |lab| ==> Compose(lab, log.names)[u] == Follow(logs + [log], u)
  {
    assert (logs + [log])[..|logs|] == logs;
  }

  /** One phase on its own graph. */
  method Phase(adj: Adj, maxIterations: nat) returns (acc: seq<nat>, count: nat, ghost log: PhaseLog)
    requires Good(adj)
    ensures LabelsOk(adj, acc, count) && count <= |adj|
    ensures Mod(adj, acc, count) >= Mod(adj, Identity(|adj|), |adj|)
    ensures LogOk(maxIterations, log) && log.adj == adj && log.names == acc && log.count == count
  {
    hide Mod, Good, LabelsOk, Phased, Renumbered;
    GoodFacts(adj);
    var state := new PhaseState(adj);
    ghost var labels := state.RunPhase(maxIterations);
    ghost var accepted := state.acceptedComm;
    LabelsFacts(adj, accepted, |adj|);
    count := state.RenumberCommunities();
    acc := state.acceptedComm;
    RenumberKeepsScore(adj, accepted, acc, count);
    RenumberedCount(accepted, acc, count);
    log := PhaseLog(adj, labels, accepted, acc, count);
  }

  lemma RenumberedCount(lab: seq<nat>, lab': seq<nat>, k: nat)
    requires Renumbered(lab, lab', k)
    ensures k <= |lab|
  {
  }

  /** All phases, until one merges nothing or the limit is reached. The communities never score below the
      singletons the algorithm starts from. */
  method Compute(first: Adj, maxPhases: nat, maxIterations: nat) returns (communities: seq<nat>, ghost logs: seq<PhaseLog>)
    requires Good(first)
    ensures maxPhases > 0 ==> LabelsOk(first, communities, |first|)
    ensures maxPhases > 0 ==> Mod(first, communities, |first|) >= Mod(first, Identity(|first|), |first|)
    ensures maxPhases == 0 ==> communities == Zeros(|first|)
    ensures Computed(first, maxPhases, maxIterations, communities, logs)
  {
    hide Mod, Good, LabelsOk, LogOk, Follow, Phases, IsAggregate, MergedFrom;
    communities := Zeros(|first|);
    var adj, lab := first, Identity(|first|);
    MergedFromSelf(first);
    logs := [];
    NoPhases(first, maxIterations);
    for phase := 0 to maxPhases
      invariant Good(adj) && MergedFrom(first, adj, lab)
      invariant phase > 0 ==> communities == lab
      invariant phase == 0 ==> adj == first && communities == Zeros(|first|) && lab == Identity(|first|)
      invariant phase > 0 ==> LabelsOk(first, lab, |first|)
      invariant Mod(first, lab, |first|) >= Mod(first, Identity(|first|), |first|)
      invariant |logs| == phase && Phases(first, maxIterations, logs) && |lab| == |first|
      invariant phase > 0 ==> Merges(logs[phase - 1], adj)
      invariant forall u: nat :: u < |lab| ==> lab[u] == Follow(logs, u)
    {
      ghost var log;
      var acc, count;
      acc, count, log := Phase(adj, maxIterations);
      GoodFacts(adj);
      MergedLabels(first, adj, lab);
      LabelsFacts(adj, acc, count);
      PhaseScore(first, adj, lab, acc, count);
      PhasesMore(first, maxIterations, logs, log);
      FollowMore(first, logs, log, lab);
      logs := logs + [log];
      communities := if phase == 0 then acc else Compose(communities, acc);
      if phase == 0 {
        assert Compose(lab, acc) == acc;
      }
      if count == |adj| {
        break;
      }
      var next := AggregateCommunities(adj, acc, count);
      AggregateIs(adj, acc, next);
      MergedStep(first, adj, lab, acc, next);
      adj, lab := next, Compose(lab, acc);
    }
  }

  /** How the communities came about: every node follows the names of phase after phase, and the phases stop
      only at the limit or when no two nodes were merged. */
  ghost predicate Computed(first: Adj, maxPhases: nat, maxIterations: nat, communities: seq<nat>, logs: seq<PhaseLog>) {
    && Phases(first, maxIterations, logs) && |logs| <= maxPhases
    && (|logs| == maxPhases || (logs != [] && logs[|logs| - 1].count == |logs[|logs| - 1].adj|))
    && (maxPhases > 0 ==> |communities| == |first| && forall u: nat :: u < |first| ==> communities[u] == Follow(logs, u))
  }

  lemma NoPhases(first: Adj, maxIterations: nat)
    ensures Phases(first, maxIterations, []) && forall u: nat :: Follow([], u) == u
  {
  }

  lemma AggregateIs(adj: Adj, acc: seq<nat>, next: Adj)
    requires forall c: nat, d: nat :: c < |next| && d < |next| ==> Mat(next)(c, d) == Aggregate(|adj|, Mat(adj), Lab(acc))(c, d)
    ensures IsAggregate(adj, acc, next)
  {
  }

  ghost function FirstAdj(g: Graph): (adj: Adj)
    requires g.Valid()
    ensures |adj| == g.n && forall u: nat :: u < g.n ==> adj[u] == FirstList(g, u)
  {
    seq(g.n, u requires 0 <= u < g.n => FirstList(g, u))
  }

  // ------------------------------------------------------------------ what singletons score

  ghost function Loops(adj: Adj): (r: nat -> int)
    ensures forall u: nat :: r(u) == if u < |adj| then WeightTo(adj[u], u) else 0
  {
    (u: nat) => if u < |adj| then WeightTo(adj[u], u) else 0
  }

  /** Weight of all self-loops. */
  ghost function LoopWeight(adj: Adj): int { Sum(|adj|, Loops(adj)) }

  ghost function OutSquares(adj: Adj): (r: nat -> int)
    ensures forall u: nat :: r(u) == if u < |adj| then Square(OutWeight(adj[u])) else 0
  {
    (u: nat) => if u < |adj| then Square(OutWeight(adj[u])) else 0
  }

  ghost function SquaredDegrees(adj: Adj): int { Sum(|adj|, OutSquares(adj)) }

  /** Singletons do not beat one single community: the self-loops are light enough. */
  ghost predicate LightLoops(adj: Adj) {
    LoopWeight(adj) * Total(|adj|, Mat(adj)) <= SquaredDegrees(adj)
  }

  lemma SingletonIntra(adj: Adj)
    ensures Intra(|adj|, Mat(adj), Lab(Identity(|adj|))) == LoopWeight(adj)
  {
    var n, W, L := |adj|, Mat(adj), Lab(Identity(|adj|));
    forall u: nat | u < n
      ensures Row(n, Inside(W, L))(u) == Loops(adj)(u)
    {
      var row: nat -> int := (v: nat) => Inside(W, L)(u, v);
      forall v: nat | v < n
        ensures row(v) == Pick(u == v, W(u, v))
      {
        assert row(v) == Inside(W, L)(u, v) && L(u) == u && L(v) == v;
      }
      SumHit(n, u, row);
      SumEq(n, row, (v: nat) => Inside(W, L)(u, v));
    }
    SumEq(n, Row(n, Inside(W, L)), Loops(adj));
  }

  lemma SingletonSquares(adj: Adj)
    requires InRange(adj)
    ensures SumSq(|adj|, Mat(adj), Lab(Identity(|adj|)), |adj|) == SquaredDegrees(adj)
  {
    hide Square;
    var n, W, L := |adj|, Mat(adj), Lab(Identity(|adj|));
    forall c: nat | c < n
      ensures Squares(n, W, L)(c) == OutSquares(adj)(c)
    {
      DegreeIsOut(adj, c);
      SumHit(n, c, OfClass(L, Degrees(n, W), c));
    }
    SumEq(n, Squares(n, W, L), OutSquares(adj));
  }

  lemma ScoreQuotient(intra: int, sq: int, t: int)
    requires t > 0
    ensures (t * t) as real > 0.0 && Score(intra, sq, t) == (intra * t - sq) as real / (t * t) as real
  {
    var i, s, r := intra as real, sq as real, t as real;
    assert Score(intra, sq, t) == i / r - s / (r * r);
    assert i / r == (i * r) / (r * r);
    assert i / r - s / (r * r) == (i * r - s) / (r * r);
    assert (intra * t) as real == i * r && (t * t) as real == r * r;
  }

  lemma ScoreSign(intra: int, sq: int, t: int)
    requires t > 0
    ensures Score(intra, sq, t) <= 0.0 <==> intra * t <= sq
  {
    hide Score;
    ScoreQuotient(intra, sq, t);
    SignOfQuotient((intra * t - sq) as real, (t * t) as real);
  }

  lemma SignOfQuotient(a: real, b: real)
    requires b > 0.0
    ensures a / b <= 0.0 <==> a <= 0.0
  {
    var q := a / b;
    assert q * b == a;
    if q <= 0.0 {
      assert q * b <= 0.0;
    } else {
      assert q * b > 0.0;
    }
  }

  /** Singletons score at most 0, what one single community scores, exactly if the self-loops are light. */
  lemma SingletonsAgainstOne(adj: Adj)
    requires Good(adj)
    ensures Mod(adj, Identity(|adj|), |adj|) <= 0.0 <==> LightLoops(adj)
  {
    hide Intra, SumSq, Score, Mat, InRange, LoopWeight, SquaredDegrees;
    SingletonIntra(adj);
    SingletonSquares(adj);
    ScoreSign(LoopWeight(adj), SquaredDegrees(adj), Total(|adj|, Mat(adj)));
  }

  // ------------------------------------------------------------------ singletons score at least -1/2

  ghost function Outs(adj: Adj): (r: nat -> int)
    ensures forall u: nat :: r(u) == if u < |adj| then OutWeight(adj[u]) else 0
  {
    (u: nat) => if u < |adj| then OutWeight(adj[u]) else 0
  }

  lemma {:induction false} Heaviest(f: nat -> int, n: nat) returns (m: nat)
    requires n > 0
    ensures m < n && forall u: nat :: u < n ==> f(u) <= f(m)
    decreases n
  {
    if n == 1 {
      m := 0;
    } else {
      m := Heaviest(f, n - 1);
      if f(n - 1) > f(m) {
        m := n - 1;
      }
    }
  }

  lemma SquareBelow(x: int, top: int)
    requires 0 <= x <= top
    ensures Square(x) <= top * x
  {
  }

  lemma TimesSum(t: int, a: int, b: int)
    ensures t * (a + b) == t * a + t * b
  {
  }

  /** Squares add up to at most the largest value times the sum. */
  lemma {:induction false} SquaresBelow(n: nat, f: nat -> int, g: nat -> int, top: int)
    requires forall u: nat :: u < n ==> 0 <= f(u) <= top && g(u) == Square(f(u))
    ensures Sum(n, g) <= top * Sum(n, f)
  {
    hide Square;
    if n > 0 {
      SquaresBelow(n - 1, f, g, top);
      SquareBelow(f(n - 1), top);
      TimesSum(top, Sum(n - 1, f), f(n - 1));
    }
  }

  lemma {:induction false} WeightBelowOut(es: seq<Nbr>, v: nat)
    ensures WeightTo(es, v) <= OutWeight(es)
  {
    if es != [] {
      WeightBelowOut(es[..|es| - 1], v);
    }
  }

  ghost function Shared(adj: Adj, m: nat): (r: nat -> int)
    requires m < |adj|
    ensures forall v: nat :: r(v) == WeightTo(adj[m], v) + (if v == m then OutWeight(adj[m]) - WeightTo(adj[m], m) else 0)
  {
    (v: nat) => WeightTo(adj[m], v) + (if v == m then OutWeight(adj[m]) - WeightTo(adj[m], m) else 0)
  }

  /** What leaves a node arrives at others: twice its degree less its self-loops is at most the total. */
  lemma DegreeBound(adj: Adj, m: nat)
    requires Good(adj) && m < |adj|
    ensures 2 * OutWeight(adj[m]) - WeightTo(adj[m], m) <= Total(|adj|, Mat(adj))
    ensures Total(|adj|, Mat(adj)) == Sum(|adj|, Outs(adj))
  {
    var n, W := |adj|, Mat(adj);
    forall v: nat | v < n
      ensures Row(n, W)(v) == Outs(adj)(v) && Shared(adj, m)(v) <= Outs(adj)(v)
    {
      DegreeIsOut(adj, v);
      WeightBelowOut(adj[v], m);
      assert W(v, m) == W(m, v);
    }
    hide Good, Mat, OutWeight, WeightTo;
    SumEq(n, Row(n, W), Outs(adj));
    SumMonotone(n, Shared(adj, m), Outs(adj));
    SharedSum(adj, m);
  }

  lemma SharedSum(adj: Adj, m: nat)
    requires Good(adj) && m < |adj|
    ensures Sum(|adj|, Shared(adj, m)) == 2 * OutWeight(adj[m]) - WeightTo(adj[m], m)
  {
    var n := |adj|;
    var extra: nat -> int := (v: nat) => if v == m then OutWeight(adj[m]) - WeightTo(adj[m], m) else 0;
    OutIsRow(n, adj[m]);
    SumHit(n, m, extra);
    SumPlus(n, ToRow(adj[m]), extra, Shared(adj, m));
  }

  lemma HalfBound(loops: int, squares: int, d: int, t: int)
    requires t > 0 && loops >= 0 && loops >= 2 * d - t && squares <= d * t
    ensures 2 * (loops * t - squares) >= -(t * t)
  {
    if 2 * d <= t {
      assert loops * t >= 0 && 2 * (d * t) == (2 * d) * t <= t * t;
    } else {
      assert loops * t >= (2 * d - t) * t == 2 * (d * t) - t * t;
      assert 2 * (d * t) == (2 * d) * t >= t * t;
    }
  }

  lemma ScoreHalf(intra: int, sq: int, t: int)
    requires t > 0 && 2 * (intra * t - sq) >= -(t * t)
    ensures Score(intra, sq, t) >= -0.5
  {
    hide Score;
    ScoreQuotient(intra, sq, t);
    HalfQuotient((intra * t - sq) as real, (t * t) as real);
  }

  lemma HalfQuotient(a: real, b: real)
    requires b > 0.0 && 2.0 * a >= -b
    ensures a / b >= -0.5
  {
    var q := a / b;
    assert q * b == a;
    assert (2.0 * q + 1.0) * b >= 0.0;
    SignOfFactor(2.0 * q + 1.0, b);
  }

  lemma SignOfFactor(x: real, b: real)
    requires b > 0.0 && x * b >= 0.0
    ensures x >= 0.0
  {
  }

  /** Singletons score at least -1/2, so the first iteration of a phase is always accepted. */
  lemma SingletonsAboveHalf(adj: Adj)
    requires Good(adj)
    ensures Mod(adj, Identity(|adj|), |adj|) >= -0.5
  {
    GoodFacts(adj);
    hide Intra, SumSq, Score, Mat, InRange, Total, OutWeight, WeightTo, Square;
    var n, t := |adj|, Total(|adj|, Mat(adj));
    NotEmpty(adj);
    var m := Heaviest(Outs(adj), n);
    DegreeBound(adj, m);
    SquaresBelow(n, Outs(adj), OutSquares(adj), Outs(adj)(m));
    SumNonneg(n, Loops(adj));
    HalfBound(LoopWeight(adj), SquaredDegrees(adj), Outs(adj)(m), t);
    SingletonIntra(adj);
    SingletonSquares(adj);
    ScoreHalf(LoopWeight(adj), SquaredDegrees(adj), t);
  }

  lemma NotEmpty(adj: Adj)
    requires Total(|adj|, Mat(adj)) > 0
    ensures |adj| > 0
  {
  }

  ghost function SelfSlots(g: Graph): (r: nat -> int)
    requires |g.fwd| == g.n
    ensures forall u: nat :: r(u) == if u < g.n then multiset(g.fwd[u])[u] else 0
  {
    (u: nat) => if u < g.n then multiset(g.fwd[u])[u] else 0
  }

  /** On the stored graph the self-loop weight counts the self-loops. */
  lemma LoopsOfGraph(g: Graph)
    requires g.Valid()
    ensures LoopWeight(FirstAdj(g)) == Sum(g.n, SelfSlots(g))
  {
    forall u: nat | u < g.n
      ensures Loops(FirstAdj(g))(u) == SelfSlots(g)(u)
    {
      FirstWeights(g, u, u);
    }
    SumEq(g.n, Loops(FirstAdj(g)), SelfSlots(g));
  }

  /** The whole algorithm on a graph with some edge. The result scores at least as much as singletons
      exactly if there is a phase or the self-loops are light: without a phase every node stays in
      community 0, which scores 0. */
  method Louvain(g: Graph, maxPhases: nat, maxIterations: nat) returns (communities: seq<nat>, ghost logs: seq<PhaseLog>)
    requires g.Valid() && g.n < COUNTER_LIMIT && Fits64(Total(g.n, Mat(FirstAdj(g))))
    ensures |communities| == g.n && Good(FirstAdj(g))
    ensures maxPhases > 0 ==> LabelsOk(FirstAdj(g), communities, g.n)
    ensures Mod(FirstAdj(g), communities, g.n) >= Mod(FirstAdj(g), Identity(g.n), g.n) <==> maxPhases > 0 || LightLoops(FirstAdj(g))
    ensures maxPhases == 0 ==> Mod(FirstAdj(g), communities, g.n) == 0.0
    ensures Computed(FirstAdj(g), maxPhases, maxIterations, communities, logs)
  {
    hide Mod, FirstList, Total, Mat, LabelsOk, InRange, LightLoops, Computed;
    var adj := InitInMemoryGraph(g);
    assert adj == FirstAdj(g);
    communities, logs := Compute(adj, maxPhases, maxIterations);
    if maxPhases == 0 {
      OneCommunityScoresZero(adj);
      SingletonsAgainstOne(adj);
    } else {
      LabelsFacts(adj, communities, g.n);
    }
  }

  /** Two nodes with a self-loop each and nothing else. */
  const LOOPS: Graph := Graph(2, [[0], [1]], [[0], [1]])

  lemma LoopsAreValid()
    ensures LOOPS.Valid()
  {
    forall u, v | 0 <= u < 2 && 0 <= v < 2
      ensures multiset(LOOPS.fwd[u])[v] == multiset(LOOPS.bwd[v])[u]
    {
      assert multiset([0])[0] == 1 && multiset([1])[1] == 1 && multiset([0])[1] == 0 && multiset([1])[0] == 0;
    }
  }

  lemma LoopList(u: nat)
    requires u < 2
    ensures FirstList(LOOPS, u) == [Nbr(u, 1)]
  {
    var only: seq<nat> := [u];
    assert LOOPS.fwd[u] == only && LOOPS.bwd[u] == only;
    assert only == only[..0] + [only[0]];
    assert Without(only, u) == [];
  }

  /** There zero phases fall short: singletons score above 0. */
  lemma NoPhaseFallsShort()
    ensures LOOPS.Valid() && Good(FirstAdj(LOOPS)) && !LightLoops(FirstAdj(LOOPS))
    ensures Mod(FirstAdj(LOOPS), Identity(2), 2) > 0.0 == Mod(FirstAdj(LOOPS), Zeros(2), 2)
  {
    LoopsAreValid();
    var adj := FirstAdj(LOOPS);
    LoopList(0);
    LoopList(1);
    var a, b := [Nbr(0, 1)], [Nbr(1, 1)];
    assert adj == [a, b];
    LoopNumbers(adj);
    FirstIsUndirected(LOOPS, adj);
    assert Fits64(2);
    SingletonsAgainstOne(adj);
    OneCommunityScoresZero(adj);
  }

  lemma LoopNumbers(adj: Adj)
    requires adj == [[Nbr(0, 1)], [Nbr(1, 1)]]
    ensures LoopWeight(adj) == 2 && SquaredDegrees(adj) == 2 && Total(2, Mat(adj)) == 2
  {
    var none: seq<Nbr> := [];
    forall u: nat | u < 2
      ensures OutWeight(adj[u]) == 1 && forall v: nat :: WeightTo(adj[u], v) == if u == v then 1 else 0
    {
      assert adj[u] == [Nbr(u, 1)] && adj[u][..0] == none && OutWeight(none) == 0;
      assert forall v: nat :: WeightTo(none, v) == 0;
    }
    SumTwo(Loops(adj));
    SumTwo(OutSquares(adj));
    var W := Mat(adj);
    forall u: nat | u < 2
      ensures Row(2, W)(u) == 1
    {
      var row: nat -> int := (v: nat) => W(u, v);
      assert row(0) == W(u, 0) && row(1) == W(u, 1);
      SumTwo(row);
      SumEq(2, row, (v: nat) => W(u, v));
    }
    SumTwo(Row(2, W));
  }

  lemma SumTwo(f: nat -> int)
    ensures Sum(2, f) == f(0) + f(1)
  {
    assert Sum(0, f) == 0 && Sum(1, f) == Sum(0, f) + f(0);
  }

  lemma OneCommunitySums(n: nat, W: Matrix, L: Labels)
    requires n > 0 && forall u: nat :: u < n ==> L(u) == 0
    ensures Intra(n, W, L) == Total(n, W) && SumSq(n, W, L, n) == Square(Total(n, W))
  {
    hide Square;
    Sum2Eq(n, Inside(W, L), W);
    forall c: nat | c < n
      ensures c != 0 ==> Squares(n, W, L)(c) == Square(0)
      ensures c == 0 ==> Squares(n, W, L)(c) == Square(Total(n, W))
    {
      if c == 0 {
        SumEq(n, OfClass(L, Degrees(n, W), c), Degrees(n, W));
      } else {
        SumZero(n, OfClass(L, Degrees(n, W), c));
      }
    }
    SquareIs(0);
    SumHit(n, 0, Squares(n, W, L));
  }

  lemma OneCommunityScoresZero(adj: Adj)
    requires Good(adj)
    ensures Mod(adj, Zeros(|adj|), |adj|) == 0.0
  {
    hide Mat, Intra, SumSq, Score, Square;
    OneCommunitySums(|adj|, Mat(adj), Lab(Zeros(|adj|)));
    WholeScoresZero(Total(|adj|, Mat(adj)));
  }

  lemma WholeScoresZero(t: int)
    requires t > 0
    ensures Score(t, Square(t), t) == 0.0
  {
    assert Square(t) as real == t as real * t as real;
  }
}
