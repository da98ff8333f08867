/** What the emitted chain means, compared with the path term it was made from (gql/src/gql_transformer.cpp).
    Merging a run of juxtaposed node patterns keeps one of them; its inline condition is the only one that
    survives. */
module GqlMeaning {
  import opened Basics
  import opened GqlPath
  import opened GqlPattern
  import opened GqlChain

  // ------------------------------------------------------------------ runs of juxtaposed node patterns

  /** The node patterns after q hops. */
  function Run(items: seq<Item>, q: nat): seq<Filler> {
    if items == [] then []
    else
      var init, last := items[..|items| - 1], items[|items| - 1];
      Run(init, q) + (if last.Spot? && |HopsOf(init)| == q then [last.filler] else [])
  }

  function FirstFull(fs: seq<Filler>): Option<Filler> {
    if fs == [] then None else if !Bare(fs[0]) then Some(fs[0]) else FirstFull(fs[1..])
  }

  /** The first with labels or properties, or else the first. */
  function Lead(fs: seq<Filler>): Filler {
    var full := FirstFull(fs);
    if full.Some? then full.value else if fs != [] then fs[0] else EMPTY
  }

  ghost predicate SameTexts(fs: seq<Filler>, f: Filler) {
    forall x :: 0 <= x < |fs| ==> fs[x].labels in {"", f.labels} && fs[x].props in {"", f.props}
  }

  lemma {:induction false} FirstFullMore(fs: seq<Filler>, f: Filler)
    ensures FirstFull(fs + [f]) == if FirstFull(fs).Some? then FirstFull(fs) else if Bare(f) then None else Some(f)
    ensures FirstFull(fs).Some? ==> !Bare(FirstFull(fs).value) && FirstFull(fs).value in fs
    ensures FirstFull(fs).None? ==> forall x :: 0 <= x < |fs| ==> Bare(fs[x])
  {
    if fs != [] {
      FirstFullMore(fs[1..], f);
      assert (fs + [f])[1..] == fs[1..] + [f];
    } else {
      assert [f][1..] == [];
    }
  }

  /** Merging one more node pattern moves the lead as it should. */
  lemma LeadMore(fs: seq<Filler>, f: Filler, g: Filler)
    requires fs != [] && MergeFiller(Lead(fs), f) == Some(g) && SameTexts(fs, Lead(fs))
    ensures Lead(fs + [f]) == g && SameTexts(fs + [f], g)
  {
    hide FirstFull;
    FirstFullMore(fs, f);
  }

  lemma LeadOne(f: Filler)
    ensures Lead([f]) == f && SameTexts([f], f)
  {
    FirstFullMore([], f);
    assert [] + [f] == [f];
  }

  lemma LeadIn(fs: seq<Filler>)
    requires fs != []
    ensures Lead(fs) in fs
  {
    FirstFullMore(fs, EMPTY);
  }

  lemma MoreItems(items: seq<Item>, it: Item)
    ensures HopsOf(items + [it]) == if it.Hop? then HopsOf(items) + [it] else HopsOf(items)
    ensures forall q: nat :: Run(items + [it], q) == if it.Spot? && |HopsOf(items)| == q then Run(items, q) + [it.filler] else Run(items, q)
  {
    assert (items + [it])[..|items|] == items;
  }

  lemma {:induction false} RunPast(items: seq<Item>, q: nat)
    requires q > |HopsOf(items)|
    ensures Run(items, q) == []
    decreases |items|
  {
    if items != [] {
      RunPast(items[..|items| - 1], q);
    }
  }

  // ------------------------------------------------------------------ the chain keeps the leads

  /** Same hops, and of every run exactly its lead; a run that is missing at the end was empty. */
  ghost predicate KeepsLeads(chain: seq<Item>, items: seq<Item>) {
    && HopsOf(chain) == HopsOf(items)
    && forall q: nat :: q <= |HopsOf(items)| ==>
      Run(chain, q) == [Lead(Run(items, q))] || (Run(chain, q) == [] && Run(items, q) == [])
  }

  ghost predicate Compatible(items: seq<Item>) {
    forall q: nat :: SameTexts(Run(items, q), Lead(Run(items, q)))
  }

  /** The output so far has the leads of the completed runs; the pending node is the lead of the last one. */
  ghost predicate Folded(items: seq<Item>, out: seq<Item>, pending: Option<Acc>) {
    var n := |HopsOf(items)|;
    && HopsOf(out) == HopsOf(items) && (forall q: nat :: q < n ==> Run(out, q) == [Lead(Run(items, q))])
    && Run(out, n) == [] && (pending.Some? <==> Run(items, n) != []) && (pending.Some? ==> pending.value.filler == Lead(Run(items, n)))
    && Compatible(items)
  }

  lemma FoldedNode(items: seq<Item>, out: seq<Item>, pending: Option<Acc>, declared: string, f: Filler, acc: Acc)
    requires Folded(items, out, pending)
    requires if pending.None? then acc.filler == f else MergeFiller(pending.value.filler, f) == Some(acc.filler)
    ensures Folded(items + [Spot(declared, f)], out, Some(acc))
  {
    hide Lead, Run, HopsOf, SameTexts;
    var n := |HopsOf(items)|;
    MoreItems(items, Spot(declared, f));
    var more := items + [Spot(declared, f)];
    if pending.None? {
      LeadOne(f);
      assert Run(more, n) == [f];
    } else {
      assert SameTexts(Run(items, n), Lead(Run(items, n)));
      LeadMore(Run(items, n), f, acc.filler);
    }
    forall q: nat
      ensures SameTexts(Run(more, q), Lead(Run(more, q))) && (q != n ==> Run(more, q) == Run(items, q))
    {
      if q != n {
        assert Run(more, q) == Run(items, q);
      }
    }
  }

  lemma FoldedEdge(items: seq<Item>, out: seq<Item>, pending: Option<Acc>, hop: Item, f: Filler)
    requires Folded(items, out, pending) && hop.Hop?
    requires f == if pending.Some? then pending.value.filler else EMPTY
    ensures Folded(items + [hop], out + [Spot("", f)] + [hop], None)
  {
    hide Run, HopsOf, SameTexts, FirstFull;
    var n := |HopsOf(items)|;
    MoreItems(items, hop);
    MoreItems(out, Spot("", f));
    MoreItems(out + [Spot("", f)], hop);
    RunPast(items, n + 1);
    RunPast(out, n + 1);
    var more := items + [hop];
    forall q: nat
      ensures Run(more, q) == Run(items, q)
    {
    }
    NoLead();
  }

  lemma NoLead()
    ensures Lead([]) == EMPTY
  {
  }

  lemma {:induction false} FoldKeepsLeads(es: seq<Event>)
    requires Fold(es).Some?
    ensures Folded(Bones(es), Bones(Fold(es).value.out), Fold(es).value.pending)
    decreases |es|
  {
    hide Folded, Bones, MergeName, MergeFiller;
    if es == [] {
      NoBones();
      NothingFolded();
    } else {
      var init, e := es[..|es| - 1], es[|es| - 1];
      FoldKeepsLeads(init);
      assert es == init + [e];
      BonesConcat(init, [e]);
      OneBone(e);
      var st, st' := Fold(init).value, Fold(es).value;
      if e.NodeEv? {
        FoldedNode(Bones(init), Bones(st.out), st.pending, e.declared, e.filler, st'.pending.value);
      } else {
        var f := if st.pending.Some? then st.pending.value.filler else EMPTY;
        var node := st'.out[|st.out|];
        assert st'.out == st.out + [node] + [e];
        BonesConcat(st.out + [node], [e]);
        BonesConcat(st.out, [node]);
        OneBone(node);
        FoldedEdge(Bones(init), Bones(st.out), st.pending, Bone(e), f);
      }
    }
  }

  lemma NothingFolded()
    ensures Folded([], [], None)
  {
    NoLead();
  }

  /** Of every run the chain keeps its lead, whose labels and properties are those of the whole run. */
  lemma ChainKeepsLeads(es: seq<Event>)
    requires Fold(es).Some?
    ensures KeepsLeads(Bones(Chain(Fold(es).value)), Bones(es)) && Compatible(Bones(es))
  {
    hide Fold, Bones, Run, HopsOf, Lead, Compatible;
    FoldKeepsLeads(es);
    var st := Fold(es).value;
    if st.pending.Some? {
      var node := NodeOf(st.pending.value);
      BonesConcat(st.out, [node]);
      OneBone(node);
      MoreItems(Bones(st.out), Bone(node));
    }
  }

  // ------------------------------------------------------------------ placing a pattern on a walk

  ghost predicate AllSat(w: Walk, fs: seq<Filler>, p: nat) {
    forall x :: 0 <= x < |fs| ==> Sat(w, fs[x], p)
  }

  ghost predicate HopsFit(w: Walk, hops: seq<Item>, cuts: seq<nat>)
    requires |cuts| == |hops| + 1
  {
    forall n :: 0 <= n < |hops| && hops[n].Hop? ==> Hops(w, hops[n].edge.spec, hops[n].quant, cuts[n], cuts[n + 1])
  }

  /** One way to place the pattern: cut q is the node of the walk where the node patterns of run q stand. A
      query returns a row for every such placement. */
  ghost predicate Fits(w: Walk, items: seq<Item>, cuts: seq<nat>) {
    && |cuts| == |HopsOf(items)| + 1
    && HopsFit(w, HopsOf(items), cuts)
    && forall q :: 0 <= q < |cuts| ==> AllSat(w, Run(items, q), cuts[q])
  }

  ghost predicate FitsBetween(w: Walk, items: seq<Item>, i: nat, j: nat) {
    exists cuts: seq<nat> :: Fits(w, items, cuts) && cuts[0] == i && cuts[|cuts| - 1] == j
  }

  lemma FitsSpot(w: Walk, items: seq<Item>, it: Item, cuts: seq<nat>)
    requires it.Spot?
    ensures Fits(w, items + [it], cuts) <==> Fits(w, items, cuts) && Sat(w, it.filler, cuts[|cuts| - 1])
  {
    hide Run, HopsOf, Sat, HopsFit;
    MoreItems(items, it);
    var n := |HopsOf(items)|;
    if |cuts| == n + 1 {
      var a, b := Run(items, n), Run(items + [it], n);
      assert b == a + [it.filler] && b[|a|] == it.filler;
      assert forall x :: 0 <= x < |a| ==> b[x] == a[x];
      forall q | 0 <= q <= n
        ensures AllSat(w, Run(items + [it], q), cuts[q]) <==> AllSat(w, Run(items, q), cuts[q]) && (q == n ==> Sat(w, it.filler, cuts[n]))
      {
        if q < n {
          assert Run(items + [it], q) == Run(items, q);
        }
      }
    }
  }

  lemma FitsHop(w: Walk, items: seq<Item>, it: Item, cuts: seq<nat>, c: nat)
    requires it.Hop? && cuts != []
    ensures Fits(w, items + [it], cuts + [c]) <==> Fits(w, items, cuts) && Hops(w, it.edge.spec, it.quant, cuts[|cuts| - 1], c)
  {
    hide Run, HopsOf, Sat, HopsFit, AllSat, Hops;
    MoreItems(items, it);
    RunPast(items, |HopsOf(items)| + 1);
    NoneSat(w, c);
    var more := cuts + [c];
    assert forall q: nat :: q < |cuts| ==> more[q] == cuts[q];
    assert forall q: nat :: Run(items + [it], q) == Run(items, q);
    if |cuts| == |HopsOf(items)| + 1 {
      HopsFitMore(w, HopsOf(items), it, cuts, c);
    }
  }

  lemma NoneSat(w: Walk, p: nat)
    ensures AllSat(w, [], p)
  {
  }

  lemma HopsFitMore(w: Walk, hops: seq<Item>, it: Item, cuts: seq<nat>, c: nat)
    requires |cuts| == |hops| + 1 && it.Hop?
    ensures HopsFit(w, hops + [it], cuts + [c]) <==> HopsFit(w, hops, cuts) && Hops(w, it.edge.spec, it.quant, cuts[|cuts| - 1], c)
  {
    hide Hops;
    var all, more := hops + [it], cuts + [c];
    assert all[|hops|] == it && more[|cuts|] == c;
    forall n | 0 <= n < |hops|
      ensures all[n] == hops[n]
    {
    }
    assert more[..|cuts|] == cuts;
  }

  // ------------------------------------------------------------------ matching is having a placement

  lemma SpotBetween(w: Walk, items: seq<Item>, it: Item, i: nat, j: nat)
    requires it.Spot?
    ensures FitsBetween(w, items + [it], i, j) <==> FitsBetween(w, items, i, j) && Sat(w, it.filler, j)
  {
    hide Run, HopsFit, AllSat, HopsOf, Sat;
    if cuts: seq<nat> :| Fits(w, items + [it], cuts) && cuts[0] == i && cuts[|cuts| - 1] == j {
      FitsSpot(w, items, it, cuts);
    }
    if cuts: seq<nat> :| Fits(w, items, cuts) && cuts[0] == i && cuts[|cuts| - 1] == j && Sat(w, it.filler, j) {
      FitsSpot(w, items, it, cuts);
    }
  }

  lemma HopBetween(w: Walk, items: seq<Item>, it: Item, i: nat, j: nat) returns (m: nat)
    requires it.Hop? && FitsBetween(w, items + [it], i, j)
    ensures FitsBetween(w, items, i, m) && Hops(w, it.edge.spec, it.quant, m, j)
  {
    hide Hops, Run, HopsFit, AllSat;
    var cuts: seq<nat> :| Fits(w, items + [it], cuts) && cuts[0] == i && cuts[|cuts| - 1] == j;
    MoreItems(items, it);
    var front := cuts[..|cuts| - 1];
    assert cuts == front + [j];
    FitsHop(w, items, it, front, j);
    m := front[|front| - 1];
  }

  lemma BetweenHop(w: Walk, items: seq<Item>, it: Item, i: nat, m: nat, j: nat)
    requires it.Hop? && FitsBetween(w, items, i, m) && Hops(w, it.edge.spec, it.quant, m, j)
    ensures FitsBetween(w, items + [it], i, j)
  {
    hide Hops, Run, HopsFit, AllSat, HopsOf;
    var cuts: seq<nat> :| Fits(w, items, cuts) && cuts[0] == i && cuts[|cuts| - 1] == m;
    FitsHop(w, items, it, cuts, j);
    assert (cuts + [j])[0] == i && (cuts + [j])[|cuts + [j]| - 1] == j;
  }

  lemma NodeLast(w: Walk, es: seq<Event>, e: Event, i: nat, j: nat)
    requires e.NodeEv?
    ensures EventsMatch(w, es + [e], i, j) <==> EventsMatch(w, es, i, j) && Sat(w, e.filler, j)
  {
    hide EventsMatch;
    if EventsMatch(w, es + [e], i, j) {
      var n := EventsSplit(w, es, [e], i, j);
      OneEvent(w, e, n, j);
    }
    if EventsMatch(w, es, i, j) && Sat(w, e.filler, j) {
      OneEvent(w, e, j, j);
      EventsJoin(w, es, [e], i, j, j);
    }
  }

  lemma NothingFits(w: Walk, i: nat, j: nat)
    ensures FitsBetween(w, [], i, j) <==> i == j
  {
    var none: seq<Item> := [];
    if i == j {
      assert Fits(w, none, [i]) && [i][0] == i && [i][|[i]| - 1] == j;
    }
  }

  /** Events match a part of a walk exactly if they have a placement on it. */
  lemma {:induction false} MatchIsPlacement(w: Walk, es: seq<Event>, i: nat, j: nat)
    ensures EventsMatch(w, es, i, j) <==> FitsBetween(w, Bones(es), i, j)
    decreases |es|
  {
    hide EventsMatch, FitsBetween, Bones, Sat, Hops;
    if es == [] {
      NoBones();
      NothingFits(w, i, j);
      NoEvents(w, i, j);
    } else {
      var init, e := es[..|es| - 1], es[|es| - 1];
      assert es == init + [e];
      BonesConcat(init, [e]);
      OneBone(e);
      if e.NodeEv? {
        MatchIsPlacement(w, init, i, j);
        NodeLast(w, init, e, i, j);
        SpotBetween(w, Bones(init), Bone(e), i, j);
      } else {
        if EventsMatch(w, es, i, j) {
          var m := EventsSplit(w, init, [e], i, j);
          OneEvent(w, e, m, j);
          MatchIsPlacement(w, init, i, m);
          BetweenHop(w, Bones(init), Bone(e), i, m, j);
        }
        if FitsBetween(w, Bones(es), i, j) {
          var m := HopBetween(w, Bones(init), Bone(e), i, j);
          MatchIsPlacement(w, init, i, m);
          OneEvent(w, e, m, j);
          EventsJoin(w, init, [e], i, m, j);
        }
      }
    }
  }

  lemma NoEvents(w: Walk, i: nat, j: nat)
    ensures EventsMatch(w, [], i, j) <==> i == j
  {
  }

  // ------------------------------------------------------------------ which conditions survive

  /** Only length 0 is allowed. */
  predicate Null(q: Quant) {
    match q
    case Fixed(n) => n == 0
    case General(lo, Some(hi)) => lo == 0 && hi == 0
    case _ => false
  }

  /** No length is allowed. */
  predicate Void(q: Quant) {
    match q
    case General(lo, Some(hi)) => hi < lo
    case _ => false
  }

  /** An allowed length, positive where one is allowed. */
  function Length(q: Quant): nat {
    match q
    case Fixed(n) => n
    case General(lo, hi) => if lo == 0 && hi != Some(0) then 1 else lo
    case _ => 1
  }

  lemma Lengths(q: Quant)
    ensures Void(q) <==> forall k: nat :: !InRange(q, k)
    ensures Null(q) <==> forall k: nat :: InRange(q, k) <==> k == 0
    ensures !Void(q) ==> InRange(q, Length(q)) && (Length(q) == 0 <==> Null(q))
  {
    assert InRange(q, Length(q)) || Void(q);
    assert InRange(q, 0) || !Null(q);
  }

  /** Hops of length 0 at most lie between the runs: they stand at the same node. */
  ghost predicate Near(hops: seq<Item>, p: nat, q: nat)
    requires p <= |hops| && q <= |hops|
  {
    forall n :: (p <= n < q || q <= n < p) ==> hops[n].Hop? && Null(hops[n].quant)
  }

  /** The condition is that of the lead of the run, or of a run at the same node. */
  ghost predicate Retained(items: seq<Item>, q: nat, text: string)
    requires q <= |HopsOf(items)|
  {
    exists p: nat :: p <= |HopsOf(items)| && Near(HopsOf(items), p, q) && Lead(Run(items, p)).cond == text
  }

  ghost predicate Unplaceable(items: seq<Item>) {
    exists n :: 0 <= n < |HopsOf(items)| && Void(HopsOf(items)[n].quant)
  }

  /** The pattern's conditions survive merging. */
  ghost predicate KeepsConditions(items: seq<Item>) {
    || Unplaceable(items)
    || forall q: nat, x: nat :: q <= |HopsOf(items)| && x < |Run(items, q)| && Run(items, q)[x].cond != "" ==>
         Retained(items, q, Run(items, q)[x].cond)
  }

  lemma {:induction false} NearMeans(w: Walk, hops: seq<Item>, cuts: seq<nat>, p: nat, q: nat)
    requires |cuts| == |hops| + 1 && HopsFit(w, hops, cuts) && p <= q <= |hops| && Near(hops, p, q)
    ensures cuts[p] == cuts[q]
    decreases q - p
  {
    if p < q {
      NearMeans(w, hops, cuts, p + 1, q);
      assert Null(hops[p].quant) && Hops(w, hops[p].edge.spec, hops[p].quant, cuts[p], cuts[p + 1]);
    }
  }

  lemma LeadSays(w: Walk, fs: seq<Filler>, p: nat)
    requires SameTexts(fs, Lead(fs))
    ensures AllSat(w, fs, p) ==> Sat(w, Lead(fs), p)
    ensures Sat(w, Lead(fs), p) && (forall x :: 0 <= x < |fs| && fs[x].cond != "" ==> w.cond(fs[x].cond, p)) ==> AllSat(w, fs, p)
  {
    if fs != [] {
      LeadIn(fs);
    }
  }

  lemma OneSat(w: Walk, f: Filler, p: nat)
    ensures AllSat(w, [f], p) <==> Sat(w, f, p)
  {
    assert [f][0] == f;
  }

  lemma LeadsFit(w: Walk, items: seq<Item>, chain: seq<Item>, cuts: seq<nat>, q: nat)
    requires KeepsLeads(chain, items) && q <= |HopsOf(items)| && |cuts| == |HopsOf(items)| + 1
    ensures AllSat(w, Run(chain, q), cuts[q]) <==> Sat(w, Lead(Run(items, q)), cuts[q])
  {
    hide HopsOf, Run, Lead;
    OneSat(w, Lead(Run(items, q)), cuts[q]);
    if Run(items, q) == [] {
      NoLead();
    }
  }

  /** Every placement of the pattern is one of the chain. */
  lemma PatternImpliesChain(w: Walk, items: seq<Item>, chain: seq<Item>, cuts: seq<nat>)
    requires KeepsLeads(chain, items) && Compatible(items) && Fits(w, items, cuts)
    ensures Fits(w, chain, cuts)
  {
    hide HopsOf, Run, Sat, AllSat, Lead, SameTexts;
    forall q | 0 <= q < |cuts|
      ensures AllSat(w, Run(chain, q), cuts[q])
    {
      LeadsFit(w, items, chain, cuts, q);
      assert SameTexts(Run(items, q), Lead(Run(items, q)));
      LeadSays(w, Run(items, q), cuts[q]);
    }
  }

  /** If the conditions survive, every placement of the chain is one of the pattern. */
  lemma ChainImpliesPattern(w: Walk, items: seq<Item>, chain: seq<Item>, cuts: seq<nat>)
    requires KeepsLeads(chain, items) && Compatible(items) && KeepsConditions(items) && Fits(w, chain, cuts)
    ensures Fits(w, items, cuts)
  {
    hide HopsOf, Run, Sat, AllSat, Lead, SameTexts, HopsFit, Retained, Unplaceable;
    NotUnplaceable(w, chain, cuts);
    SameUnplaceable(chain, items);
    forall q | 0 <= q < |cuts|
      ensures AllSat(w, Run(items, q), cuts[q])
    {
      assert SameTexts(Run(items, q), Lead(Run(items, q)));
      LeadsFit(w, items, chain, cuts, q);
      forall x | 0 <= x < |Run(items, q)| && Run(items, q)[x].cond != ""
        ensures w.cond(Run(items, q)[x].cond, cuts[q])
      {
        RetainedHolds(w, items, chain, cuts, q, Run(items, q)[x].cond);
      }
      LeadSays(w, Run(items, q), cuts[q]);
    }
  }

  lemma NotUnplaceable(w: Walk, items: seq<Item>, cuts: seq<nat>)
    requires Fits(w, items, cuts)
    ensures !Unplaceable(items)
  {
    hide Run, HopsOf;
    var hops := HopsOf(items);
    forall n | 0 <= n < |hops| && hops[n].Hop?
      ensures !Void(hops[n].quant)
    {
      Lengths(hops[n].quant);
      assert Hops(w, hops[n].edge.spec, hops[n].quant, cuts[n], cuts[n + 1]);
    }
  }

  lemma SameUnplaceable(chain: seq<Item>, items: seq<Item>)
    requires HopsOf(chain) == HopsOf(items)
    ensures Unplaceable(chain) <==> Unplaceable(items)
  {
  }

  lemma RetainedHolds(w: Walk, items: seq<Item>, chain: seq<Item>, cuts: seq<nat>, q: nat, text: string)
    requires KeepsLeads(chain, items) && Fits(w, chain, cuts) && q <= |HopsOf(items)| && text != "" && Retained(items, q, text)
    ensures w.cond(text, cuts[q])
  {
    hide HopsOf, Run, Lead, AllSat, HopsFit, Near;
    var hops := HopsOf(items);
    var p: nat :| p <= |hops| && Near(hops, p, q) && Lead(Run(items, p)).cond == text;
    LeadsFit(w, items, chain, cuts, p);
    if p <= q {
      NearMeans(w, hops, cuts, p, q);
    } else {
      NearTurns(hops, p, q);
      NearMeans(w, hops, cuts, q, p);
    }
  }

  lemma NearTurns(hops: seq<Item>, p: nat, q: nat)
    requires p <= |hops| && q <= |hops| && Near(hops, p, q)
    ensures Near(hops, q, p)
  {
  }

  // ------------------------------------------------------------------ a lost condition shows

  /** A placement with every hop as long as allowed lengths demand, and longer than 0 where possible. */
  ghost function Spread(hops: seq<Item>): (cuts: seq<nat>)
    ensures |cuts| == |hops| + 1
  {
    if hops == [] then [0]
    else
      var front, last := Spread(hops[..|hops| - 1]), hops[|hops| - 1];
      front + [front[|front| - 1] + (if last.Hop? then Length(last.quant) else 0)]
  }

  lemma {:induction false} SpreadStep(hops: seq<Item>, n: nat)
    requires n < |hops| && hops[n].Hop?
    ensures Spread(hops)[n + 1] == Spread(hops)[n] + Length(hops[n].quant)
    decreases |hops|
  {
    if n < |hops| - 1 {
      SpreadStep(hops[..|hops| - 1], n);
    }
  }

  /** A walk on which everything holds but this condition at this node. */
  ghost function BlindAt(text: string, p: nat): Walk {
    Walk((_, _) => true, (_, _) => true, (t, m) => t != text || m != p, (_, _) => true)
  }

  lemma SpreadFits(w: Walk, hops: seq<Item>)
    requires forall n :: 0 <= n < |hops| ==> hops[n].Hop? && !Void(hops[n].quant)
    requires forall spec: string, p: nat :: w.edge(spec, p)
    ensures HopsFit(w, hops, Spread(hops))
  {
    forall n | 0 <= n < |hops|
      ensures Hops(w, hops[n].edge.spec, hops[n].quant, Spread(hops)[n], Spread(hops)[n + 1])
    {
      SpreadStep(hops, n);
      Lengths(hops[n].quant);
    }
  }

  /** Only runs with hops of length 0 between them share a node. */
  lemma {:induction false} SpreadApart(hops: seq<Item>, p: nat, q: nat)
    requires p <= q <= |hops| && forall n :: 0 <= n < |hops| ==> hops[n].Hop? && !Void(hops[n].quant)
    ensures Spread(hops)[p] <= Spread(hops)[q] && (Spread(hops)[p] == Spread(hops)[q] ==> Near(hops, p, q))
    decreases q - p
  {
    hide Spread;
    if p < q {
      SpreadApart(hops, p + 1, q);
      SpreadStep(hops, p);
      Lengths(hops[p].quant);
    }
  }

  lemma SameNodeNear(hops: seq<Item>, p: nat, q: nat)
    requires p <= |hops| && q <= |hops| && forall n :: 0 <= n < |hops| ==> hops[n].Hop? && !Void(hops[n].quant)
    requires Spread(hops)[p] == Spread(hops)[q]
    ensures Near(hops, p, q)
  {
    hide Spread;
    if p <= q {
      SpreadApart(hops, p, q);
    } else {
      SpreadApart(hops, q, p);
    }
  }

  /** A condition that does not survive: a walk that violates it at one node only has a placement of the chain
      that is none of the pattern. */
  lemma LostConditionShows(items: seq<Item>, chain: seq<Item>) returns (w: Walk, cuts: seq<nat>)
    requires KeepsLeads(chain, items) && !KeepsConditions(items)
    ensures Fits(w, chain, cuts) && !Fits(w, items, cuts)
    ensures cuts == Spread(HopsOf(items)) && exists text: string, p: nat :: w == BlindAt(text, p)
  {
    hide HopsOf, Run, Lead, HopsFit, Spread, Near;
    var hops := HopsOf(items);
    var q: nat, x: nat :| q <= |hops| && x < |Run(items, q)| && Run(items, q)[x].cond != "" && !Retained(items, q, Run(items, q)[x].cond);
    var text := Run(items, q)[x].cond;
    cuts := Spread(hops);
    w := BlindAt(text, cuts[q]);
    SpreadFits(w, hops);
    assert !Sat(w, Run(items, q)[x], cuts[q]);
    forall p | 0 <= p < |cuts|
      ensures AllSat(w, Run(chain, p), cuts[p])
    {
      LeadsFit(w, items, chain, cuts, p);
      if cuts[p] == cuts[q] {
        SameNodeNear(hops, p, q);
      }
    }
  }

  /** Chain and pattern have the same placements on all walks if and only if the pattern's conditions
      survive. */
  lemma SamePlacements(items: seq<Item>, chain: seq<Item>)
    requires KeepsLeads(chain, items) && Compatible(items)
    ensures KeepsConditions(items) <==> forall w: Walk, cuts: seq<nat> :: Fits(w, chain, cuts) <==> Fits(w, items, cuts)
  {
    hide KeepsLeads, Compatible, Fits, KeepsConditions;
    if KeepsConditions(items) {
      forall w: Walk, cuts: seq<nat>
        ensures Fits(w, chain, cuts) <==> Fits(w, items, cuts)
      {
        if Fits(w, items, cuts) {
          PatternImpliesChain(w, items, chain, cuts);
        }
        if Fits(w, chain, cuts) {
          ChainImpliesPattern(w, items, chain, cuts);
        }
      }
    } else {
      var w, cuts := LostConditionShows(items, chain);
    }
  }

  // ------------------------------------------------------------------ the translation

  ghost predicate Translates(counts: map<nat, nat>, ts: Term, next: nat) {
    FlatTerm(counts, ts, false, next).Some? && Fold(FlatTerm(counts, ts, false, next).value.events).Some?
  }

  ghost function Emitted(counts: map<nat, nat>, ts: Term, next: nat): seq<Event>
    requires Translates(counts, ts, next)
  {
    Chain(Fold(FlatTerm(counts, ts, false, next).value.events).value)
  }

  lemma EmittedLeads(counts: map<nat, nat>, ts: Term, next: nat)
    requires Translates(counts, ts, next)
    ensures KeepsLeads(Bones(Emitted(counts, ts, next)), Items(counts, ts)) && Compatible(Items(counts, ts))
  {
    hide FlatTerm, Fold, Items, Bones, KeepsLeads, Compatible;
    FlatBones(counts, ts, false, next);
    ChainKeepsLeads(FlatTerm(counts, ts, false, next).value.events);
  }

  /** The emitted chain has exactly the placements of the unrolled pattern if and only if every inline condition
      of the pattern is that of a lead at the same node. */
  lemma TranslationExact(counts: map<nat, nat>, ts: Term, next: nat)
    requires Translates(counts, ts, next)
    ensures KeepsConditions(Items(counts, ts)) <==>
            forall w: Walk, cuts: seq<nat> :: Fits(w, Bones(Emitted(counts, ts, next)), cuts) <==> Fits(w, Items(counts, ts), cuts)
  {
    hide *;
    EmittedLeads(counts, ts, next);
    SamePlacements(Items(counts, ts), Bones(Emitted(counts, ts, next)));
  }

  /** A part of a walk matches the term exactly if the unrolled pattern has a placement on it. */
  lemma TermIsPlacement(w: Walk, counts: map<nat, nat>, ts: Term, next: nat, i: nat, j: nat)
    requires FlatTerm(counts, ts, false, next).Some?
    ensures TermMatch(w, counts, ts, i, j) <==> FitsBetween(w, Items(counts, ts), i, j)
  {
    hide *;
    FlatTermMatches(w, counts, ts, false, next, i, j);
    FlatBones(counts, ts, false, next);
    MatchIsPlacement(w, FlatTerm(counts, ts, false, next).value.events, i, j);
  }

  /** If the conditions survive, the chain matches exactly the walks of the term; it always matches those. */
  lemma TranslationMatches(w: Walk, counts: map<nat, nat>, ts: Term, next: nat, i: nat, j: nat)
    requires Translates(counts, ts, next)
    ensures TermMatch(w, counts, ts, i, j) ==> EventsMatch(w, Emitted(counts, ts, next), i, j)
    ensures KeepsConditions(Items(counts, ts)) ==> (EventsMatch(w, Emitted(counts, ts, next), i, j) <==> TermMatch(w, counts, ts, i, j))
  {
    hide FlatTerm, Fold, Items, Bones, KeepsLeads, Compatible, Fits, KeepsConditions, TermMatch, EventsMatch, Emitted;
    var chain, items := Bones(Emitted(counts, ts, next)), Items(counts, ts);
    EmittedLeads(counts, ts, next);
    TermIsPlacement(w, counts, ts, next, i, j);
    MatchIsPlacement(w, Emitted(counts, ts, next), i, j);
    forall cuts: seq<nat>
      ensures Fits(w, items, cuts) ==> Fits(w, chain, cuts)
      ensures KeepsConditions(items) && Fits(w, chain, cuts) ==> Fits(w, items, cuts)
    {
      if Fits(w, items, cuts) {
        PatternImpliesChain(w, items, chain, cuts);
      }
      if KeepsConditions(items) && Fits(w, chain, cuts) {
        ChainImpliesPattern(w, items, chain, cuts);
      }
    }
    BetweenFollows(w, items, chain, i, j);
    if KeepsConditions(items) {
      BetweenFollows(w, chain, items, i, j);
    }
  }

  lemma BetweenFollows(w: Walk, a: seq<Item>, b: seq<Item>, i: nat, j: nat)
    requires forall cuts: seq<nat> :: Fits(w, a, cuts) ==> Fits(w, b, cuts)
    ensures FitsBetween(w, a, i, j) ==> FitsBetween(w, b, i, j)
  {
    hide HopsOf, Run, HopsFit, AllSat;
    if cuts: seq<nat> :| Fits(w, a, cuts) && cuts[0] == i && cuts[|cuts| - 1] == j {
      assert Fits(w, b, cuts);
    }
  }

  // ------------------------------------------------------------------ agreeing on which walks match

  /** Every hop allows one length only, so that a start determines the placement. */
  ghost predicate Rigid(items: seq<Item>) {
    forall n :: 0 <= n < |HopsOf(items)| ==> OneLength(HopsOf(items)[n].quant)
  }

  predicate OneLength(q: Quant) {
    match q
    case Once => true
    case Fixed(_) => true
    case General(lo, Some(hi)) => lo == hi
    case _ => false
  }

  /** No condition of a run is, in the same words, that of a lead at another node. */
  ghost predicate OwnTexts(items: seq<Item>) {
    forall q: nat, x: nat, p: nat :: q <= |HopsOf(items)| && p <= |HopsOf(items)| && x < |Run(items, q)| ==>
      (Run(items, q)[x].cond == Lead(Run(items, p)).cond != "" ==> Near(HopsOf(items), p, q))
  }

  lemma {:induction false} RigidCuts(w: Walk, hops: seq<Item>, a: seq<nat>, b: seq<nat>, n: nat)
    requires |a| == |b| == |hops| + 1 && HopsFit(w, hops, a) && HopsFit(w, hops, b) && a[0] == b[0] && n <= |hops|
    requires forall m :: 0 <= m < |hops| ==> hops[m].Hop? && OneLength(hops[m].quant)
    ensures a[..n + 1] == b[..n + 1]
  {
    if n > 0 {
      RigidCuts(w, hops, a, b, n - 1);
      assert a[n - 1] == a[..n][n - 1] == b[..n][n - 1] == b[n - 1];
      assert Hops(w, hops[n - 1].edge.spec, hops[n - 1].quant, a[n - 1], a[n - 1 + 1]);
      assert Hops(w, hops[n - 1].edge.spec, hops[n - 1].quant, b[n - 1], b[n - 1 + 1]);
      assert a[..n + 1] == a[..n] + [a[n]] && b[..n + 1] == b[..n] + [b[n]];
    }
  }

  lemma RigidLoss(items: seq<Item>, chain: seq<Item>) returns (w: Walk, i: nat, j: nat)
    requires KeepsLeads(chain, items) && !KeepsConditions(items) && Rigid(items)
    ensures FitsBetween(w, chain, i, j) && !FitsBetween(w, items, i, j)
  {
    hide HopsOf, Run, Lead, HopsFit, Spread, Near, KeepsConditions, OneLength, AllSat;
    var cuts: seq<nat>;
    w, cuts := LostConditionShows(items, chain);
    i, j := cuts[0], cuts[|cuts| - 1];
    forall other: seq<nat> | Fits(w, items, other)
      ensures other[0] != i
    {
      if other[0] == i {
        RigidCuts(w, HopsOf(items), cuts, other, |HopsOf(items)|);
        SameWhole(cuts, other);
        assert false;
      }
    }
  }

  lemma SameWhole(a: seq<nat>, b: seq<nat>)
    requires |a| == |b| && a[..|a|] == b[..|b|]
    ensures a == b
  {
    assert a[..|a|] == a && b[..|b|] == b;
  }

  ghost function BlindTo(text: string): Walk {
    Walk((_, _) => true, (_, _) => true, (t, _) => t != text, (_, _) => true)
  }

  lemma OwnTextLoss(items: seq<Item>, chain: seq<Item>) returns (w: Walk, i: nat, j: nat)
    requires KeepsLeads(chain, items) && !KeepsConditions(items) && OwnTexts(items)
    ensures FitsBetween(w, chain, i, j) && !FitsBetween(w, items, i, j)
  {
    hide HopsOf, Run, Lead, HopsFit, Spread, Near;
    var hops := HopsOf(items);
    var q: nat, x: nat :| q <= |hops| && x < |Run(items, q)| && Run(items, q)[x].cond != "" && !Retained(items, q, Run(items, q)[x].cond);
    var text := Run(items, q)[x].cond;
    var cuts := Spread(hops);
    w := BlindTo(text);
    i, j := cuts[0], cuts[|cuts| - 1];
    SpreadFits(w, hops);
    forall p | 0 <= p < |cuts|
      ensures AllSat(w, Run(chain, p), cuts[p])
    {
      LeadsFit(w, items, chain, cuts, p);
      assert Lead(Run(items, p)).cond != text;
    }
    assert Fits(w, chain, cuts);
    forall other: seq<nat>
      ensures !Fits(w, items, other)
    {
      NeverFits(w, items, other, q, x);
    }
  }

  lemma NeverFits(w: Walk, items: seq<Item>, cuts: seq<nat>, q: nat, x: nat)
    requires q <= |HopsOf(items)| && x < |Run(items, q)| && forall p: nat :: !Sat(w, Run(items, q)[x], p)
    ensures !Fits(w, items, cuts)
  {
    hide HopsOf, Run, Sat;
    if |cuts| == |HopsOf(items)| + 1 {
      assert !Sat(w, Run(items, q)[x], cuts[q]);
    }
  }

  /** Chain and term agree on which walks match if and only if the conditions survive, where a start determines
      the placement, and where no other node has a condition in the same words. */
  lemma TranslationAgreesIff(counts: map<nat, nat>, ts: Term, next: nat)
    requires Translates(counts, ts, next) && (Rigid(Items(counts, ts)) || OwnTexts(Items(counts, ts)))
    ensures KeepsConditions(Items(counts, ts)) <==>
            forall w: Walk, i: nat, j: nat :: EventsMatch(w, Emitted(counts, ts, next), i, j) <==> TermMatch(w, counts, ts, i, j)
  {
    hide *;
    var items, es := Items(counts, ts), Emitted(counts, ts, next);
    if KeepsConditions(items) {
      forall w: Walk, i: nat, j: nat
        ensures EventsMatch(w, es, i, j) <==> TermMatch(w, counts, ts, i, j)
      {
        TranslationMatches(w, counts, ts, next, i, j);
      }
    } else {
      EmittedLeads(counts, ts, next);
      var w, i, j := Loss(items, Bones(es));
      MatchIsPlacement(w, es, i, j);
      TranslatesFlat(counts, ts, next);
      TermIsPlacement(w, counts, ts, next, i, j);
    }
  }

  lemma TranslatesFlat(counts: map<nat, nat>, ts: Term, next: nat)
    requires Translates(counts, ts, next)
    ensures FlatTerm(counts, ts, false, next).Some?
  {
  }

  lemma Loss(items: seq<Item>, chain: seq<Item>) returns (w: Walk, i: nat, j: nat)
    requires KeepsLeads(chain, items) && !KeepsConditions(items) && (Rigid(items) || OwnTexts(items))
    ensures FitsBetween(w, chain, i, j) && !FitsBetween(w, items, i, j)
  {
    hide *;
    if Rigid(items) {
      w, i, j := RigidLoss(items, chain);
    } else {
      w, i, j := OwnTextLoss(items, chain);
    }
  }

  /** Where every hop allows a positive length: each condition of a run is empty or that of the run's lead. */
  lemma KeepsRunByRun(items: seq<Item>)
    requires forall n :: 0 <= n < |HopsOf(items)| ==> !Null(HopsOf(items)[n].quant) && !Void(HopsOf(items)[n].quant)
    ensures KeepsConditions(items) <==> forall q: nat :: q <= |HopsOf(items)| ==> LeadSpeaks(Run(items, q))
  {
    hide HopsOf, Run, Lead, Null, Void, Retained;
    assert !Unplaceable(items);
    if q: nat :| q <= |HopsOf(items)| && !LeadSpeaks(Run(items, q)) {
      var x :| 0 <= x < |Run(items, q)| && Run(items, q)[x].cond !in {"", Lead(Run(items, q)).cond};
      RetainedHere(items, q, Run(items, q)[x].cond);
      assert !KeepsConditions(items);
    } else {
      forall q: nat, x: nat | q <= |HopsOf(items)| && x < |Run(items, q)| && Run(items, q)[x].cond != ""
        ensures Retained(items, q, Run(items, q)[x].cond)
      {
        assert LeadSpeaks(Run(items, q));
        RetainedHere(items, q, Run(items, q)[x].cond);
      }
      assert KeepsConditions(items);
    }
  }

  /** No condition of the run but that of its lead. */
  ghost predicate LeadSpeaks(fs: seq<Filler>) {
    forall x :: 0 <= x < |fs| ==> fs[x].cond in {"", Lead(fs).cond}
  }

  lemma RetainedHere(items: seq<Item>, q: nat, text: string)
    requires q <= |HopsOf(items)| && forall n :: 0 <= n < |HopsOf(items)| ==> !Null(HopsOf(items)[n].quant)
    ensures Retained(items, q, text) <==> Lead(Run(items, q)).cond == text
  {
    hide HopsOf, Run, Lead, Null;
    var hops := HopsOf(items);
    assert Near(hops, q, q);
    forall p: nat | p <= |hops| && p != q
      ensures !Near(hops, p, q)
    {
      var n := if p < q then p else q;
      assert !Null(hops[n].quant);
    }
  }

  // ------------------------------------------------------------------ examples

  /** Node patterns without names, labels and properties always merge. */
  ghost predicate Plain(e: Event) {
    e.NodeEv? ==> e.name == Anonymous && Bare(e.filler)
  }

  lemma {:induction false} PlainFolds(es: seq<Event>)
    requires forall x :: 0 <= x < |es| ==> Plain(es[x])
    ensures Fold(es).Some?
    ensures var pending := Fold(es).value.pending; pending.Some? ==> pending.value.name == Anonymous && Bare(pending.value.filler)
    decreases |es|
  {
    if es != [] {
      PlainFolds(es[..|es| - 1]);
      assert Plain(es[|es| - 1]);
    }
  }

  lemma {:induction false} PlainFlattens(ts: Term)
    requires forall x :: 0 <= x < |ts| ==> (ts[x].NodeF? && ts[x].declared == "" && ts[x].quant == Once && Bare(ts[x].filler))
                                           || (ts[x].EdgeF? && ts[x].edge.declared == "")
    ensures FlatTerm(map[], ts, false, 0).Some? && FlatTerm(map[], ts, false, 0).value.next == 0
    ensures var es := FlatTerm(map[], ts, false, 0).value.events; forall x :: 0 <= x < |es| ==> Plain(es[x])
  {
    if ts != [] {
      var a := FlatFactor(map[], ts[0], false, 0).value;
      assert a.next == 0 && |a.events| == 1 && Plain(a.events[0]);
      PlainFlattens(ts[1..]);
    }
  }

  /** The chain ends with a node, as a pattern must, exactly if the unrolled pattern does. */
  lemma EndsWithNode(counts: map<nat, nat>, ts: Term, next: nat)
    requires Translates(counts, ts, next)
    ensures var items := Items(counts, ts);
            |Emitted(counts, ts, next)| % 2 == 1 <==> items != [] && items[|items| - 1].Spot?
  {
    hide FlatTerm, Fold, Items, Bones;
    var es := FlatTerm(counts, ts, false, next).value.events;
    FlatBones(counts, ts, false, next);
    ChainShape(es);
    if es != [] {
      BoneAt(es, |es| - 1);
    }
  }

  /** A pattern that is just an edge is emitted without its end node. */
  lemma OpenEnd()
    ensures Translates(map[], [STEP], 0) && |Emitted(map[], [STEP], 0)| == 2
  {
    PlainFlattens([STEP]);
    var es := FlatTerm(map[], [STEP], false, 0).value.events;
    PlainFolds(es);
    FlatBones(map[], [STEP], false, 0);
    assert [STEP][1..] == [];
    assert Items(map[], [STEP]) == [Hop(Edge("", "S"), Star)];
    hide FlatTerm, Fold, Items;
    BoneAt(es, 0);
    assert es == [es[0]];
    ChainShape(es);
    PendingNode(es);
  }

  const STEP: Factor := EdgeF(Edge("", "S"), Star)

  /** Any number of steps, an empty node pattern next to one with a condition, any number of steps, the same
      condition again. */
  const TWICE: Term := [STEP, NodeF("", EMPTY, Once), NodeF("", Filler("", "", "X"), Once), STEP, NodeF("", Filler("", "", "X"), Once)]

  lemma TwiceItems()
    ensures var hop, x := Hop(Edge("", "S"), Star), Filler("", "", "X");
            Items(map[], TWICE) == [hop] + [Spot("", EMPTY)] + [Spot("", x)] + [hop] + [Spot("", x)]
  {
    var hop, x := Hop(Edge("", "S"), Star), Filler("", "", "X");
    var node := NodeF("", x, Once);
    var none: Term := [];
    var t1: Term, t2: Term, t3: Term, t4: Term := [node], [STEP, node], [node, STEP, node], [NodeF("", EMPTY, Once), node, STEP, node];
    assert t1[1..] == none && Items(map[], t1) == [Spot("", x)];
    assert t2[1..] == t1 && Items(map[], t2) == [hop] + [Spot("", x)];
    assert t3[1..] == t2 && Items(map[], t3) == [Spot("", x)] + [hop] + [Spot("", x)];
    assert t4[1..] == t3 && Items(map[], t4) == [Spot("", EMPTY)] + [Spot("", x)] + [hop] + [Spot("", x)];
    assert TWICE[1..] == t4;
  }

  lemma TwiceRuns()
    ensures var items, hop, x := Items(map[], TWICE), Hop(Edge("", "S"), Star), Filler("", "", "X");
            HopsOf(items) == [hop, hop] && Run(items, 0) == [] && Run(items, 1) == [EMPTY, x] && Run(items, 2) == [x]
  {
    var hop, x := Hop(Edge("", "S"), Star), Filler("", "", "X");
    var e, s := Spot("", EMPTY), Spot("", x);
    TwiceItems();
    hide Items, HopsOf, Run;
    NoItems();
    MoreItems([], hop);
    MoreItems([hop], e);
    MoreItems([hop] + [e], s);
    MoreItems([hop] + [e] + [s], hop);
    MoreItems([hop] + [e] + [s] + [hop], s);
    assert [] + [hop] == [hop];
  }

  lemma NoItems()
    ensures HopsOf([]) == [] && forall q: nat :: Run([], q) == []
  {
  }

  lemma TwiceLoses()
    ensures !KeepsConditions(Items(map[], TWICE))
  {
    hide Items, HopsOf, Run, Lead;
    TwiceRuns();
    var items, x := Items(map[], TWICE), Filler("", "", "X");
    LeadOne(x);
    NoLead();
    FirstIsLead(x);
    assert Run(items, 1)[1] == x;
    assert !Null(Star) && HopsOf(items)[1].quant == Star;
    assert !Near(HopsOf(items), 2, 1);
  }

  lemma FirstIsLead(x: Filler)
    requires Bare(x)
    ensures Lead([EMPTY, x]) == EMPTY
  {
    LeadOne(EMPTY);
    assert [EMPTY] + [x] == [EMPTY, x];
    LeadMore([EMPTY], x, EMPTY);
  }

  lemma TwicePlaces(w: Walk, chain: seq<Item>, cuts: seq<nat>)
    requires KeepsLeads(chain, Items(map[], TWICE)) && Fits(w, chain, cuts)
    ensures |cuts| == 3 && Fits(w, Items(map[], TWICE), [cuts[0], cuts[2], cuts[2]])
  {
    hide Items, HopsOf, Run, Lead;
    var items, x := Items(map[], TWICE), Filler("", "", "X");
    TwiceRuns();
    LeadOne(x);
    LeadsFit(w, items, chain, cuts, 2);
    assert Hops(w, "S", Star, cuts[0], cuts[1]) && Hops(w, "S", Star, cuts[1], cuts[2]);
    assert Hops(w, "S", Star, cuts[0], cuts[2]) && Hops(w, "S", Star, cuts[2], cuts[2]);
  }

  /** Between hops of free length the loss of a condition can go unnoticed in whether a walk matches, though not
      in its placements. */
  lemma AgreesDespiteLoss()
    ensures Translates(map[], TWICE, 0) && !KeepsConditions(Items(map[], TWICE))
    ensures forall w: Walk, i: nat, j: nat :: EventsMatch(w, Emitted(map[], TWICE, 0), i, j) <==> TermMatch(w, map[], TWICE, i, j)
  {
    PlainFlattens(TWICE);
    PlainFolds(FlatTerm(map[], TWICE, false, 0).value.events);
    TwiceLoses();
    hide Items, HopsOf, Run, Fold, FlatTerm, Emitted, TermMatch, EventsMatch, KeepsLeads, KeepsConditions, HopsFit, AllSat;
    var chain, items := Bones(Emitted(map[], TWICE, 0)), Items(map[], TWICE);
    EmittedLeads(map[], TWICE, 0);
    forall w: Walk, i: nat, j: nat
      ensures EventsMatch(w, Emitted(map[], TWICE, 0), i, j) <==> TermMatch(w, map[], TWICE, i, j)
    {
      TranslationMatches(w, map[], TWICE, 0, i, j);
      MatchIsPlacement(w, Emitted(map[], TWICE, 0), i, j);
      TermIsPlacement(w, map[], TWICE, 0, i, j);
      if cuts: seq<nat> :| Fits(w, chain, cuts) && cuts[0] == i && cuts[|cuts| - 1] == j {
        TwicePlaces(w, chain, cuts);
        assert FitsBetween(w, items, i, j);
      }
    }
  }

  /** A node pattern with just a condition, next to a labelled one: the condition is lost. */
  lemma LostCondition() returns (ts: Term, w: Walk)
    ensures Translates(map[], ts, 0) && EventsMatch(w, Emitted(map[], ts, 0), 0, 0) && !TermMatch(w, map[], ts, 0, 0)
  {
    var a, b := NodeF("a", Filler("", "", "a.age > 5"), Once), NodeF("", Filler("Person", "", ""), Once);
    ts := [a, b];
    w := BlindTo("a.age > 5");
    var e, f := NodeEv(User("a"), "a", a.filler, false), NodeEv(Anonymous, "", b.filler, false);
    assert ts[1..] == [b] && [b][1..] == [];
    assert FlatFactor(map[], b, false, 0) == Some(Flat([f], [], [], 0));
    assert FlatFactor(map[], a, false, 0) == Some(Flat([e], [], [], 0));
    assert FlatTerm(map[], [], false, 0) == Some(Flat([], [], [], 0));
    var rest: Term := [b];
    assert rest[0] == b && rest[1..] == [];
    assert FlatTerm(map[], rest, false, 0).Some? && FlatTerm(map[], rest, false, 0).value.events == [f];
    assert FlatTerm(map[], ts, false, 0).value.events == [e, f];
    assert [e, f][..1] == [e] && [e][..0] == [];
    assert Fold([e]) == Some(State([], Some(Acc(User("a"), false, a.filler)), map[]));
    var acc := Acc(User("a"), false, b.filler);
    assert Fold([e, f]) == Some(State([], Some(acc), map[]));
    OneEvent(w, NodeOf(acc), 0, 0);
    assert Chain(Fold([e, f]).value) == [NodeOf(acc)];
    assert !FactorMatch(w, map[], a, 0, 0);
  }
}
