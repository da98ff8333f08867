/** The whole translation of a path term: when it is refused, which names the chain shows, and the lists that re-bind
    interior variables (gql/src/gql_transformer.cpp). */
module GqlTranslate {
  import opened Basics
  import opened GqlPath
  import opened GqlPattern
  import opened GqlFlatten
  import opened GqlChain
  import opened GqlMeaning

  // ------------------------------------------------------------------ which terms can be flattened

  /** The quantifier of an interior that has to be repeated fixes a count, or the statement driver does. */
  predicate Countable(counts: map<nat, nat>, f: Factor)
    requires f.ParenF?
  {
    match f.quant
    case Fixed(n) => 1 <= n <= 1000
    case General(lo, Some(hi)) => 1 <= lo <= hi <= lo + 4 && lo <= 1000 && (lo < hi ==> f.id in counts && counts[f.id] >= 1)
    case _ => false
  }

  /** What the translator accepts of one factor; inside means in a quantified interior. */
  predicate Supported(counts: map<nat, nat>, f: Factor, inside: bool) {
    match f
    case NodeF(_, filler, q) => q == Once && (inside ==> filler.cond == "")
    case EdgeF(_, q) => inside ==> q == Once
    case ParenF(_, term, q) =>
      q != Once ==> !inside && EdgeCount(term) > 0 && (EdgeCount(term) > 1 || HasFillers(term) ==> Countable(counts, f))
    case OtherF => false
  }

  /** All factors of a term, with whether they stand in a quantified interior. */
  function Parts(ts: Term, inside: bool): seq<(Factor, bool)>
    decreases ts, 0
  {
    if ts == [] then [] else FactorParts(ts[0], inside) + Parts(ts[1..], inside)
  }

  function FactorParts(f: Factor, inside: bool): seq<(Factor, bool)>
    decreases f, 0
  {
    [(f, inside)] + (if f.ParenF? then Parts(f.term, inside || f.quant != Once) else [])
  }

  ghost predicate AllSupported(counts: map<nat, nat>, parts: seq<(Factor, bool)>) {
    forall x :: 0 <= x < |parts| ==> Supported(counts, parts[x].0, parts[x].1)
  }

  lemma SupportedConcat(counts: map<nat, nat>, a: seq<(Factor, bool)>, b: seq<(Factor, bool)>)
    ensures AllSupported(counts, a + b) <==> AllSupported(counts, a) && AllSupported(counts, b)
  {
    hide Supported;
    var all := a + b;
    assert forall x :: 0 <= x < |b| ==> all[|a| + x] == b[x];
    assert forall x :: 0 <= x < |a| ==> all[x] == a[x];
  }

  lemma RepeatsIff(counts: map<nat, nat>, f: Factor)
    requires f.ParenF?
    ensures Repeats(counts, f).Some? <==> Countable(counts, f)
  {
  }

  /** A term is flattened if and only if every factor of it is supported where it stands. */
  lemma {:induction false} FlatIff(counts: map<nat, nat>, ts: Term, inside: bool, next: nat)
    ensures FlatTerm(counts, ts, inside, next).Some? <==> AllSupported(counts, Parts(ts, inside))
    decreases ts, 0
  {
    hide FlatFactor, FactorParts, AllSupported;
    if ts == [] {
      NoParts(counts);
    } else {
      SupportedConcat(counts, FactorParts(ts[0], inside), Parts(ts[1..], inside));
      FlatFactorIff(counts, ts[0], inside, next);
      var a := FlatFactor(counts, ts[0], inside, next);
      if a.Some? {
        FlatIff(counts, ts[1..], inside, a.value.next);
      }
    }
  }

  lemma NoParts(counts: map<nat, nat>)
    ensures AllSupported(counts, [])
  {
  }

  lemma OnePart(counts: map<nat, nat>, f: Factor, inside: bool)
    ensures AllSupported(counts, [(f, inside)]) <==> Supported(counts, f, inside)
  {
    assert [(f, inside)][0] == (f, inside);
  }

  lemma {:induction false} FlatFactorIff(counts: map<nat, nat>, f: Factor, inside: bool, next: nat)
    ensures FlatFactor(counts, f, inside, next).Some? <==> AllSupported(counts, FactorParts(f, inside))
    decreases f, 0
  {
    hide AllSupported, EdgeCount, HasFillers, Repeats, Countable, FlatTerm, Parts;
    OnePart(counts, f, inside);
    if f.ParenF? {
      SupportedConcat(counts, [(f, inside)], Parts(f.term, inside || f.quant != Once));
      FlatIff(counts, f.term, inside || f.quant != Once, next);
      RepeatsIff(counts, f);
    } else {
      assert [(f, inside)] + [] == [(f, inside)];
    }
  }

  // ------------------------------------------------------------------ names of a run

  /** A variable of a node pattern: the user's own, or one that is renamed. */
  datatype Var = Own(text: string) | Inner

  /** The variables declared after q hops. */
  function Vars(items: seq<Item>, marks: seq<bool>, q: nat): seq<Var>
    requires |marks| == |items|
  {
    if items == [] then []
    else
      var n := |items| - 1;
      var last := items[n];
      Vars(items[..n], marks[..n], q)
      + (if last.Spot? && last.declared != "" && |HopsOf(items[..n])| == q then [if marks[n] then Inner else Own(last.declared)] else [])
  }

  /** One user variable at most, and at most one renamed variable before it. */
  ghost predicate VarsAgree(vs: seq<Var>) {
    && (forall i, j :: 0 <= i < j < |vs| && vs[i].Own? && vs[j].Own? ==> vs[i] == vs[j])
    && (|vs| > 2 && vs[0].Inner? && vs[1].Inner? ==> forall i :: 0 <= i < |vs| ==> vs[i].Inner?)
  }

  /** Any two node patterns with labels or properties have the same ones. */
  ghost predicate FillersAgree(fs: seq<Filler>) {
    forall i, j :: 0 <= i < j < |fs| && !Bare(fs[i]) && !Bare(fs[j]) ==> fs[i].labels == fs[j].labels && fs[i].props == fs[j].props
  }

  /** The names of the named node events after q hops. */
  ghost function Names(es: seq<Event>, q: nat): seq<Name> {
    if es == [] then []
    else
      var init, e := es[..|es| - 1], es[|es| - 1];
      Names(init, q) + (if e.NodeEv? && e.name != Anonymous && NumEdges(init) == q then [e.name] else [])
  }

  ghost function FirstUser(ns: seq<Name>): Option<Name> {
    if ns == [] then None else if ns[0].User? then Some(ns[0]) else FirstUser(ns[1..])
  }

  /** The user's name, or else the first. */
  ghost function Winner(ns: seq<Name>): Name {
    var user := FirstUser(ns);
    if user.Some? then user.value else if ns != [] then ns[0] else Anonymous
  }

  ghost predicate NamesAgree(ns: seq<Name>) {
    && (forall i, j :: 0 <= i < j < |ns| && ns[i].User? && ns[j].User? ==> ns[i] == ns[j])
    && (|ns| > 2 && !ns[0].User? && !ns[1].User? ==> forall i :: 0 <= i < |ns| ==> !ns[i].User?)
  }

  lemma {:induction false} FirstUserMore(ns: seq<Name>, n: Name)
    ensures FirstUser(ns + [n]) == if FirstUser(ns).Some? then FirstUser(ns) else if n.User? then Some(n) else None
    ensures FirstUser(ns).Some? ==> FirstUser(ns).value.User? && FirstUser(ns).value in ns
    ensures FirstUser(ns).None? ==> forall i :: 0 <= i < |ns| ==> !ns[i].User?
  {
    if ns != [] {
      FirstUserMore(ns[1..], n);
      assert (ns + [n])[1..] == ns[1..] + [n];
    } else {
      assert [n][1..] == [];
    }
  }

  /** The pending name of a run is its winner; it may still give way only if it is a single generated one. */
  ghost predicate PendingName(acc: Acc, ns: seq<Name>) {
    && acc.name == Winner(ns) && (acc.synth <==> |ns| == 1 && ns[0].Synth?)
    && forall i :: 0 <= i < |ns| ==> ns[i] != Anonymous
  }

  lemma NameStarts(name: Name, filler: Filler)
    ensures PendingName(Acc(name, name.Synth?, filler), if name == Anonymous then [] else [name])
    ensures NamesAgree(if name == Anonymous then [] else [name])
  {
    FirstUserMore([], name);
    assert [] + [name] == [name];
  }

  /** Merging one more name succeeds exactly if the run still agrees. */
  lemma NameMerges(acc: Acc, ns: seq<Name>, b: Name, aliases: Aliases)
    requires PendingName(acc, ns) && NamesAgree(ns) && (b.Synth? ==> acc.name != b)
    ensures var more := if b == Anonymous then ns else ns + [b];
            && (MergeName(acc, b, aliases).Some? <==> NamesAgree(more))
            && forall f: Filler :: MergeName(acc, b, aliases).Some? ==>
                 PendingName(Acc(MergeName(acc, b, aliases).value.name, MergeName(acc, b, aliases).value.synth, f), more)
  {
    hide FirstUser;
    FirstUserMore(ns, b);
    var more := ns + [b];
    assert forall i :: 0 <= i < |ns| ==> more[i] == ns[i];
    assert more[|ns|] == b;
  }

  lemma NamesPrefix(ns: seq<Name>, b: Name)
    requires NamesAgree(ns + [b])
    ensures NamesAgree(ns)
  {
    var more := ns + [b];
    assert forall i :: 0 <= i < |ns| ==> more[i] == ns[i];
  }

  /** Merging one more filler succeeds exactly if the run still agrees. */
  lemma FillerMerges(fs: seq<Filler>, f: Filler)
    requires fs != [] && FillersAgree(fs)
    ensures MergeFiller(Lead(fs), f).Some? <==> FillersAgree(fs + [f])
  {
    hide FirstFull;
    FirstFullMore(fs, f);
    var more := fs + [f];
    assert forall i :: 0 <= i < |fs| ==> more[i] == fs[i];
    assert more[|fs|] == f;
  }

  lemma FillersPrefix(fs: seq<Filler>, f: Filler)
    requires FillersAgree(fs + [f])
    ensures FillersAgree(fs)
  {
    var more := fs + [f];
    assert forall i :: 0 <= i < |fs| ==> more[i] == fs[i];
  }

  lemma NamesMore(es: seq<Event>, e: Event)
    ensures forall q: nat :: Names(es + [e], q) ==
              if e.NodeEv? && e.name != Anonymous && NumEdges(es) == q then Names(es, q) + [e.name] else Names(es, q)
  {
    assert (es + [e])[..|es|] == es;
  }

  lemma {:induction false} NamesPast(es: seq<Event>, q: nat)
    requires q > NumEdges(es)
    ensures Names(es, q) == []
    decreases |es|
  {
    hide NumEdges;
    if es != [] {
      PositionBound(es, |es| - 1);
      NamesPast(es[..|es| - 1], q);
    }
  }

  // ------------------------------------------------------------------ when the chain is refused

  ghost predicate RunAgrees(es: seq<Event>, q: nat) {
    NamesAgree(Names(es, q)) && FillersAgree(Run(Bones(es), q))
  }

  /** Completed nodes carry the winners of their runs, and the pending one is on its way to it. */
  ghost predicate Winners(es: seq<Event>, st: State) {
    && |st.out| == 2 * NumEdges(es)
    && (forall q: nat :: q < NumEdges(es) ==> EventName(st.out[2 * q]) == Winner(Names(es, q)))
    && (if st.pending.Some? then PendingName(st.pending.value, Names(es, NumEdges(es))) else Names(es, NumEdges(es)) == [])
  }

  ghost predicate RunsAgree(es: seq<Event>) {
    forall q: nat :: RunAgrees(es, q)
  }

  lemma MoreEdges(es: seq<Event>, e: Event)
    ensures NumEdges(es + [e]) == NumEdges(es) + (if e.EdgeEv? then 1 else 0)
  {
    NumEdgesConcat(es, [e]);
    assert [e][1..] == [];
  }

  lemma EdgeKeepsRuns(es: seq<Event>, e: Event)
    requires e.EdgeEv?
    ensures forall q: nat :: Names(es + [e], q) == Names(es, q) && (RunAgrees(es + [e], q) <==> RunAgrees(es, q))
  {
    hide Names, Run, NumEdges, NamesAgree, FillersAgree;
    NamesMore(es, e);
    BonesConcat(es, [e]);
    OneBone(e);
    MoreItems(Bones(es), Bone(e));
  }

  /** A further node changes the last run only. */
  lemma NodeGrowsRun(es: seq<Event>, e: Event)
    requires e.NodeEv?
    ensures var n, ns := NumEdges(es), Names(es, NumEdges(es));
            && (forall q: nat :: q != n ==> Names(es + [e], q) == Names(es, q) && (RunAgrees(es + [e], q) <==> RunAgrees(es, q)))
            && Names(es + [e], n) == (if e.name == Anonymous then ns else ns + [e.name])
            && Run(Bones(es + [e]), n) == Run(Bones(es), n) + [e.filler]
            && (RunAgrees(es + [e], n) ==> RunAgrees(es, n))
  {
    hide Names, Run, NumEdges, NamesAgree, FillersAgree;
    NamesMore(es, e);
    BonesConcat(es, [e]);
    OneBone(e);
    MoreItems(Bones(es), Bone(e));
    HopsCounted(es);
    var n := NumEdges(es);
    if RunAgrees(es + [e], n) {
      FillersPrefix(Run(Bones(es), n), e.filler);
      if e.name != Anonymous {
        NamesPrefix(Names(es, n), e.name);
      }
    }
  }

  lemma AgreeShrinks(es: seq<Event>, e: Event)
    requires RunsAgree(es + [e])
    ensures RunsAgree(es)
  {
    hide RunAgrees, Names, Run, NumEdges;
    forall q: nat
      ensures RunAgrees(es, q)
    {
      assert RunAgrees(es + [e], q);
      if e.NodeEv? {
        NodeGrowsRun(es, e);
      } else {
        EdgeKeepsRuns(es, e);
      }
    }
  }

  lemma AgreeGrows(es: seq<Event>, e: Event)
    requires RunsAgree(es)
    ensures e.EdgeEv? ==> RunsAgree(es + [e])
    ensures e.NodeEv? ==> (RunsAgree(es + [e]) <==> RunAgrees(es + [e], NumEdges(es)))
  {
    hide RunAgrees, Names, Run, NumEdges;
    if e.NodeEv? {
      NodeGrowsRun(es, e);
      if RunAgrees(es + [e], NumEdges(es)) {
        forall q: nat
          ensures RunAgrees(es + [e], q)
        {
          assert RunAgrees(es, q);
        }
      }
    } else {
      EdgeKeepsRuns(es, e);
      forall q: nat
        ensures RunAgrees(es + [e], q)
      {
        assert RunAgrees(es, q);
      }
    }
  }

  /** The step for the first node of a run. */
  lemma NodeStarts(es: seq<Event>, st: State, e: Event)
    requires e.NodeEv? && Winners(es, st) && RunsAgree(es) && Folded(Bones(es), Bones(st.out), st.pending) && st.pending.None?
    ensures Step(st, e).Some? && RunsAgree(es + [e]) && Winners(es + [e], Step(st, e).value)
  {
    hide Run, NumEdges, Names, NamesAgree, FillersAgree, MergeName, MergeFiller, Lead, Winner, RunsAgree, PendingName, Compatible;
    MoreEdges(es, e);
    HopsCounted(es);
    NodeGrowsRun(es, e);
    AgreeGrows(es, e);
    NameStarts(e.name, e.filler);
    OneFillerAgrees(e.filler);
    assert [] + [e.filler] == [e.filler] && [] + [e.name] == [e.name];
  }

  /** The step for a node that joins a run. */
  lemma NodeJoins(es: seq<Event>, st: State, e: Event)
    requires e.NodeEv? && Winners(es, st) && RunsAgree(es) && Folded(Bones(es), Bones(st.out), st.pending) && st.pending.Some?
    requires e.name.Synth? ==> st.pending.value.name != e.name
    ensures Step(st, e).Some? <==> RunsAgree(es + [e])
    ensures Step(st, e).Some? ==> Winners(es + [e], Step(st, e).value)
  {
    hide Run, NumEdges, Names, NamesAgree, FillersAgree, MergeName, MergeFiller, Lead, Winner, RunsAgree, PendingName, Compatible;
    var n := NumEdges(es);
    MoreEdges(es, e);
    HopsCounted(es);
    NodeGrowsRun(es, e);
    AgreeGrows(es, e);
    LastAgrees(es, n);
    NameMerges(st.pending.value, Names(es, n), e.name, st.aliases);
    FillerMerges(Run(Bones(es), n), e.filler);
  }

  lemma LastAgrees(es: seq<Event>, q: nat)
    requires RunsAgree(es)
    ensures NamesAgree(Names(es, q)) && FillersAgree(Run(Bones(es), q))
  {
    assert RunAgrees(es, q);
  }

  lemma OneFillerAgrees(f: Filler)
    ensures FillersAgree([f])
  {
  }

  lemma NoWinner()
    ensures Winner([]) == Anonymous
  {
  }

  /** The step for an edge. */
  lemma EdgeStepWins(es: seq<Event>, st: State, e: Event)
    requires e.EdgeEv? && Winners(es, st)
    ensures Winners(es + [e], Step(st, e).value)
  {
    hide NumEdges, Names, NamesAgree, FillersAgree, RunAgrees, Winner;
    MoreEdges(es, e);
    EdgeKeepsRuns(es, e);
    NamesPast(es, NumEdges(es) + 1);
    NoWinner();
    var out := Step(st, e).value.out;
    assert forall q: nat :: 2 * q < |st.out| ==> out[2 * q] == st.out[2 * q];
  }

  /** The chain is emitted if and only if every run agrees on names and on labels and properties. */
  lemma {:induction false} FoldIff(es: seq<Event>)
    requires Increasing(es)
    ensures Fold(es).Some? <==> RunsAgree(es)
    ensures Fold(es).Some? ==> Winners(es, Fold(es).value)
    decreases |es|
  {
    hide RunsAgree, Winners, Step, Folded;
    if es == [] {
      NothingAgrees();
    } else {
      var init, e := es[..|es| - 1], es[|es| - 1];
      assert es == init + [e];
      FoldIff(init);
      if RunsAgree(es) {
        AgreeShrinks(init, e);
      }
      if Fold(init).Some? {
        var st := Fold(init).value;
        if e.NodeEv? {
          FoldKeepsLeads(init);
          FreshName(init, e);
          if st.pending.None? {
            NodeStarts(init, st, e);
          } else {
            NodeJoins(init, st, e);
          }
        } else {
          AgreeGrows(init, e);
          EdgeStepWins(init, st, e);
          EdgeSteps(st, e);
        }
      }
    }
  }

  lemma EdgeSteps(st: State, e: Event)
    requires e.EdgeEv?
    ensures Step(st, e).Some?
  {
  }

  lemma FreshName(es: seq<Event>, e: Event)
    requires Fold(es).Some? && Increasing(es) && e.NodeEv? && (e.name.Synth? ==> e.name.id >= Bound(es))
    ensures Fold(es).value.pending.Some? && e.name.Synth? ==> Fold(es).value.pending.value.name != e.name
  {
    hide Fold, Increasing, NumEdges, Bound;
    NamesHold(es);
    OutShape(es);
    var st := Fold(es).value;
    if st.pending.Some? {
      assert NodeName(st, |st.out|) == st.pending.value.name;
    }
  }

  lemma NothingAgrees()
    ensures RunsAgree([]) && Winners([], State([], None, map[]))
  {
    NoBones();
  }

  // ------------------------------------------------------------------ refusal and names on the pattern

  ghost predicate SameKind(ns: seq<Name>, vs: seq<Var>) {
    && |ns| == |vs|
    && forall i :: 0 <= i < |ns| ==> if vs[i].Own? then ns[i] == User(vs[i].text) else ns[i].Synth?
  }

  lemma {:induction false} NamesAreVars(es: seq<Event>, marks: seq<bool>, q: nat)
    requires NamedBy(es, marks)
    ensures SameKind(Names(es, q), Vars(Bones(es), marks, q))
    decreases |es|
  {
    hide NumEdges, HopsOf;
    if es != [] {
      var n := |es| - 1;
      assert NameFits(es[n], marks[n]);
      NamedFront(es, marks);
      NamesAreVars(es[..n], marks[..n], q);
      HopsCounted(es[..n]);
      assert Bones(es)[..n] == Bones(es[..n]);
    }
  }

  lemma NamedFront(es: seq<Event>, marks: seq<bool>)
    requires NamedBy(es, marks) && es != []
    ensures NamedBy(es[..|es| - 1], marks[..|es| - 1])
  {
    hide NameFits;
  }

  lemma AgreeAlike(ns: seq<Name>, vs: seq<Var>)
    requires SameKind(ns, vs)
    ensures NamesAgree(ns) <==> VarsAgree(vs)
  {
  }

  /** In every run: at most one user variable, with at most one renamed one before it, and no two different
      specifications of labels and properties. */
  ghost predicate RunsMerge(items: seq<Item>, marks: seq<bool>)
    requires |marks| == |items|
  {
    forall q: nat :: VarsAgree(Vars(items, marks, q)) && FillersAgree(Run(items, q))
  }

  lemma MergeIff(es: seq<Event>, marks: seq<bool>)
    requires NamedBy(es, marks)
    ensures RunsAgree(es) <==> RunsMerge(Bones(es), marks)
  {
    hide NamesAgree, VarsAgree, FillersAgree, Names, Vars, Run, SameKind, Bones;
    forall q: nat
      ensures RunAgrees(es, q) <==> VarsAgree(Vars(Bones(es), marks, q)) && FillersAgree(Run(Bones(es), q))
    {
      NamesAreVars(es, marks, q);
      AgreeAlike(Names(es, q), Vars(Bones(es), marks, q));
    }
  }

  /** A term is translated if and only if every factor of it is supported where it stands and every run of its
      unrolled pattern can be merged. */
  lemma Refusals(counts: map<nat, nat>, ts: Term, next: nat)
    ensures FlatTerm(counts, ts, false, next).Some? <==> AllSupported(counts, Parts(ts, false))
    ensures Translates(counts, ts, next) <==> AllSupported(counts, Parts(ts, false)) && RunsMerge(Items(counts, ts), Marks(counts, ts))
  {
    hide FlatTerm, Fold, Items, Marks, Parts, AllSupported, RunsMerge, RunsAgree, NamedBy, Increasing, Bones;
    FlatIff(counts, ts, false, next);
    if FlatTerm(counts, ts, false, next).Some? {
      var es := FlatTerm(counts, ts, false, next).value.events;
      FlatInOrder(counts, ts, next);
      FlatNames(counts, ts, next);
      FlatBones(counts, ts, false, next);
      FoldIff(es);
      MergeIff(es, Marks(counts, ts));
    }
  }

  lemma FlatInOrder(counts: map<nat, nat>, ts: Term, next: nat)
    requires FlatTerm(counts, ts, false, next).Some?
    ensures Increasing(FlatTerm(counts, ts, false, next).value.events)
  {
    hide FlatTerm;
    FlatIncreases([], counts, ts, false, next);
    var es := FlatTerm(counts, ts, false, next).value.events;
    assert [] + es == es;
  }

  /** Node pattern x, outside quantified interiors, declares v. */
  ghost predicate OwnAt(items: seq<Item>, marks: seq<bool>, x: nat, v: string) {
    x < |items| == |marks| && items[x].Spot? && !marks[x] && items[x].declared == v && v != ""
  }

  /** Node pattern x is one of those after q hops and declares a variable. */
  ghost predicate NamedAt(items: seq<Item>, q: nat, x: nat) {
    x < |items| && items[x].Spot? && items[x].declared != "" && Rank(items, x) == q
  }

  /** Edge x stands in its place, under its own variable unless it is renamed. */
  ghost predicate EdgeAt(chain: seq<Event>, items: seq<Item>, marks: seq<bool>, x: nat)
    requires x < |items| == |marks| && items[x].Hop?
  {
    var at := 2 * Rank(items, x) + 1;
    && at < |chain| && chain[at].EdgeEv? && chain[at].edge == items[x].edge && chain[at].quant == items[x].quant
    && (if marks[x] && items[x].edge.declared != "" then chain[at].rename.Synth? else chain[at].rename == Anonymous)
  }

  /** Which names the chain shows: a user's variable exactly where a node pattern outside quantified interiors declares
      it, no name exactly where none declares any, and edges as they stand. */
  ghost predicate NamesShown(chain: seq<Event>, items: seq<Item>, marks: seq<bool>) {
    && |marks| == |items|
    && (forall x: nat, v: string :: OwnAt(items, marks, x, v) ==> ShownAt(chain, items, x, User(v)))
    && (forall q: nat, v: string :: 2 * q < |chain| && EventName(chain[2 * q]) == User(v) ==>
          exists x: nat :: OwnAt(items, marks, x, v) && Rank(items, x) == q)
    && (forall q: nat :: 2 * q < |chain| ==> (EventName(chain[2 * q]) == Anonymous <==> forall x: nat :: !NamedAt(items, q, x)))
    && (forall x: nat :: x < |items| && items[x].Hop? ==> EdgeAt(chain, items, marks, x))
  }

  lemma {:induction false} NamesFrom(es: seq<Event>, q: nat, i: nat) returns (x: nat)
    requires i < |Names(es, q)|
    ensures x < |es| && es[x].NodeEv? && es[x].name == Names(es, q)[i] != Anonymous && NumEdges(es[..x]) == q
    decreases |es|
  {
    var n := |es| - 1;
    if i < |Names(es[..n], q)| {
      x := NamesFrom(es[..n], q, i);
      assert es[..n][..x] == es[..x];
    } else {
      x := n;
    }
  }

  /** The winner of a run is one of its names. */
  lemma WinnerFrom(es: seq<Event>, q: nat) returns (x: nat)
    requires Winner(Names(es, q)) != Anonymous
    ensures x < |es| && es[x].NodeEv? && es[x].name == Winner(Names(es, q)) && NumEdges(es[..x]) == q
  {
    hide Names, FirstUser, NumEdges;
    var ns := Names(es, q);
    FirstUserMore(ns, Anonymous);
    assert Winner(ns) in ns;
    var i :| 0 <= i < |ns| && ns[i] == Winner(ns);
    x := NamesFrom(es, q, i);
  }

  lemma ChainWins(es: seq<Event>, q: nat)
    requires Fold(es).Some? && Increasing(es) && 2 * q < |Chain(Fold(es).value)|
    ensures EventName(Chain(Fold(es).value)[2 * q]) == Winner(Names(es, q))
  {
    hide Fold, Increasing, Names, Winner, NumEdges, RunsAgree;
    FoldIff(es);
  }

  lemma UserResolves(a: Aliases, v: string)
    requires Decreasing(a)
    ensures Resolve(a, User(v)) == User(v)
  {
  }

  /** Clause by clause. */
  lemma OwnShown(es: seq<Event>, marks: seq<bool>, x: nat, v: string)
    requires Fold(es).Some? && Increasing(es) && NamedBy(es, marks) && OwnAt(Bones(es), marks, x, v)
    ensures ShownAt(Chain(Fold(es).value), Bones(es), x, User(v))
  {
    BoneAt(es, x);
    assert NameFits(es[x], marks[x]);
    hide Fold, Increasing, Bones, NamedBy;
    NodeShown(es, x);
    UserResolves(Fold(es).value.aliases, v);
  }

  lemma UserDeclared(es: seq<Event>, marks: seq<bool>, q: nat, v: string) returns (x: nat)
    requires Fold(es).Some? && Increasing(es) && NamedBy(es, marks) && 2 * q < |Chain(Fold(es).value)|
    requires EventName(Chain(Fold(es).value)[2 * q]) == User(v)
    ensures OwnAt(Bones(es), marks, x, v) && Rank(Bones(es), x) == q
  {
    hide Fold, Increasing, Names, Winner, NumEdges, Chain, Rank;
    ChainWins(es, q);
    x := WinnerFrom(es, q);
    assert NameFits(es[x], marks[x]);
    RankCounts(es, x);
  }

  lemma NamelessIff(es: seq<Event>, marks: seq<bool>, q: nat)
    requires Fold(es).Some? && Increasing(es) && NamedBy(es, marks) && 2 * q < |Chain(Fold(es).value)|
    ensures EventName(Chain(Fold(es).value)[2 * q]) == Anonymous <==> forall x: nat :: !NamedAt(Bones(es), q, x)
  {
    hide Fold, Increasing, Names, Winner, NumEdges, Rank, Bones;
    ChainWins(es, q);
    if Winner(Names(es, q)) != Anonymous {
      var x := WinnerFrom(es, q);
      BoneAt(es, x);
      assert NameFits(es[x], marks[x]);
      RankCounts(es, x);
      assert NamedAt(Bones(es), q, x);
    }
    if x: nat :| NamedAt(Bones(es), q, x) {
      BoneAt(es, x);
      assert NameFits(es[x], marks[x]);
      NodeShown(es, x);
    }
  }

  lemma EdgeStands(es: seq<Event>, marks: seq<bool>, x: nat)
    requires Fold(es).Some? && NamedBy(es, marks) && x < |es| && es[x].EdgeEv?
    ensures EdgeAt(Chain(Fold(es).value), Bones(es), marks, x)
  {
    hide Fold, NumEdges, Rank;
    assert NameFits(es[x], marks[x]);
    EdgesInOrder(es, x);
    RankCounts(es, x);
  }

  lemma ShowsNames(counts: map<nat, nat>, ts: Term, next: nat)
    requires Translates(counts, ts, next)
    ensures NamesShown(Emitted(counts, ts, next), Items(counts, ts), Marks(counts, ts))
  {
    hide FlatTerm, Fold, Items, Marks, NamedBy, Increasing, Bones, NamedAt, EdgeAt, ShownAt, Rank, Chain;
    var es := FlatTerm(counts, ts, false, next).value.events;
    var chain, items, marks := Chain(Fold(es).value), Items(counts, ts), Marks(counts, ts);
    FlatInOrder(counts, ts, next);
    FlatNames(counts, ts, next);
    FlatBones(counts, ts, false, next);
    forall x: nat, v: string | OwnAt(items, marks, x, v)
      ensures ShownAt(chain, items, x, User(v))
    {
      OwnShown(es, marks, x, v);
    }
    forall q: nat, v: string | 2 * q < |chain| && EventName(chain[2 * q]) == User(v)
      ensures exists x: nat :: OwnAt(items, marks, x, v) && Rank(items, x) == q
    {
      var x := UserDeclared(es, marks, q, v);
    }
    forall q: nat | 2 * q < |chain|
      ensures EventName(chain[2 * q]) == Anonymous <==> forall x: nat :: !NamedAt(items, q, x)
    {
      NamelessIff(es, marks, q);
    }
    forall x: nat | x < |items| && items[x].Hop?
      ensures EdgeAt(chain, items, marks, x)
    {
      BoneAt(es, x);
      EdgeStands(es, marks, x);
    }
  }

  // ------------------------------------------------------------------ generated names are fresh

  lemma {:induction false} BoundCovers(es: seq<Event>, x: nat)
    requires x < |es| && EventName(es[x]).Synth?
    ensures EventName(es[x]).id < Bound(es)
    decreases |es|
  {
    if x < |es| - 1 {
      BoundCovers(es[..|es| - 1], x);
    }
  }

  lemma {:induction false} NumbersDiffer(es: seq<Event>, x: nat, y: nat)
    requires Increasing(es) && x < y < |es| && EventName(es[x]).Synth?
    ensures EventName(es[x]) != EventName(es[y])
    decreases |es|
  {
    var n := |es| - 1;
    if y < n {
      NumbersDiffer(es[..n], x, y);
    } else {
      BoundCovers(es[..n], x);
    }
  }

  lemma {:induction false} KthEdge(es: seq<Event>, k: nat) returns (x: nat)
    requires k < NumEdges(es)
    ensures x < |es| && es[x].EdgeEv? && NumEdges(es[..x]) == k
    decreases |es|
  {
    hide NumEdges;
    var n := |es| - 1;
    assert es != [] by { NoEdges(es); }
    assert es == es[..n] + [es[n]];
    MoreEdges(es[..n], es[n]);
    if k < NumEdges(es[..n]) {
      x := KthEdge(es[..n], k);
      assert es[..n][..x] == es[..x];
    } else {
      x := n;
    }
  }

  lemma NoEdges(es: seq<Event>)
    ensures NumEdges(es) > 0 ==> es != []
  {
  }

  /** The event a named element of the chain has its name from. */
  lemma EventOf(es: seq<Event>, p: nat) returns (x: nat)
    requires Fold(es).Some? && Increasing(es) && p < |Chain(Fold(es).value)| && EventName(Chain(Fold(es).value)[p]) != Anonymous
    ensures x < |es| && EventName(es[x]) == EventName(Chain(Fold(es).value)[p])
    ensures es[x].EdgeEv? == (p % 2 == 1) && NumEdges(es[..x]) == p / 2
  {
    hide Fold, Increasing, Names, Winner, NumEdges;
    OutShape(es);
    if p % 2 == 1 {
      x := KthEdge(es, p / 2);
      EdgesInOrder(es, x);
    } else {
      ChainWins(es, p / 2);
      x := WinnerFrom(es, p / 2);
    }
  }

  /** No two elements of the chain share a generated name. */
  ghost predicate FreshNames(chain: seq<Event>) {
    forall p: nat, q: nat :: p < q < |chain| && EventName(chain[p]).Synth? ==> EventName(chain[p]) != EventName(chain[q])
  }

  lemma NamesAreFresh(es: seq<Event>)
    requires Fold(es).Some? && Increasing(es)
    ensures FreshNames(Chain(Fold(es).value))
  {
    hide Fold, Increasing, NumEdges, Chain;
    var chain := Chain(Fold(es).value);
    forall p: nat, q: nat | p < q < |chain| && EventName(chain[p]).Synth? && EventName(chain[q]).Synth?
      ensures EventName(chain[p]) != EventName(chain[q])
    {
      var x := EventOf(es, p);
      var y := EventOf(es, q);
      if x < y {
        NumbersDiffer(es, x, y);
      } else {
        assert x != y;
        NumbersDiffer(es, y, x);
      }
    }
  }

  // ------------------------------------------------------------------ a run that is refused

  lemma VarsMore(items: seq<Item>, marks: seq<bool>, it: Item, mark: bool, q: nat)
    requires |marks| == |items|
    ensures Vars(items + [it], marks + [mark], q) ==
            Vars(items, marks, q)
            + (if it.Spot? && it.declared != "" && |HopsOf(items)| == q then [if mark then Inner else Own(it.declared)] else [])
    ensures |HopsOf(items + [it])| == |HopsOf(items)| + (if it.Hop? then 1 else 0)
  {
    assert (items + [it])[..|items|] == items && (marks + [mark])[..|items|] == marks;
  }

  /** An edge and two juxtaposed variables, once. */
  const PAIR: Term := [EdgeF(Edge("", "S"), Once), NodeF("y", EMPTY, Once), NodeF("z", EMPTY, Once)]

  const BOTH: Factor := ParenF(0, PAIR, Fixed(1))

  lemma PairItems()
    ensures Items(map[], PAIR) == [Hop(Edge("", "S"), Once)] + [Spot("y", EMPTY)] + [Spot("z", EMPTY)]
    ensures EdgeCount(PAIR) == 1 && HasFillers(PAIR)
  {
    var e, y, z := EdgeF(Edge("", "S"), Once), NodeF("y", EMPTY, Once), NodeF("z", EMPTY, Once);
    var none: Term, t1: Term, t2: Term := [], [z], [y, z];
    assert t1[1..] == none && Items(map[], t1) == [Spot("z", EMPTY)] && EdgeCount(t1) == 0;
    assert t2[1..] == t1 && Items(map[], t2) == [Spot("y", EMPTY)] + [Spot("z", EMPTY)] && EdgeCount(t2) == 0 && HasFillers(t2);
    assert PAIR[1..] == t2;
  }

  lemma BothItems()
    ensures FactorItems(map[], BOTH) == [Hop(Edge("", "S"), Once)] + [Spot("y", EMPTY)] + [Spot("z", EMPTY)]
    ensures FactorMarks(map[], BOTH) == [true] + [true] + [true]
  {
    PairItems();
    hide Items, EdgeCount, HasFillers;
    var inner := Items(map[], PAIR);
    assert Tile(inner, 1) == Tile(inner, 0) + inner == inner;
  }

  /** Two juxtaposed interior variables right before a variable of the user are refused, although each of them
      alone would give way to it. */
  lemma PairRefused()
    ensures var ts: Term := [BOTH, NodeF("a", EMPTY, Once)];
            && AllSupported(map[], Parts(ts, false)) && !RunsMerge(Items(map[], ts), Marks(map[], ts))
            && forall next: nat :: !Translates(map[], ts, next)
  {
    var a: Factor := NodeF("a", EMPTY, Once);
    var ts: Term, t1: Term, none: Term := [BOTH, a], [a], [];
    assert t1[1..] == none && ts[1..] == t1;
    BothItems();
    var items := [Hop(Edge("", "S"), Once)] + [Spot("y", EMPTY)] + [Spot("z", EMPTY)] + [Spot("a", EMPTY)];
    var marks := [true] + [true] + [true] + [false];
    assert Items(map[], t1) == [Spot("a", EMPTY)] && Marks(map[], t1) == [false];
    assert Items(map[], ts) == items && Marks(map[], ts) == marks;
    PairVars();
    PairSupported();
    hide Items, Marks, AllSupported, Parts, Translates, VarsAgree, Vars;
    PairClashes();
    forall next: nat
      ensures !Translates(map[], ts, next)
    {
      Refusals(map[], ts, next);
    }
  }

  lemma PairClashes()
    ensures !VarsAgree([Inner, Inner, Own("a")])
  {
    var vs := [Inner, Inner, Own("a")];
    assert vs[2].Own?;
  }

  lemma PairVars()
    ensures var items := [Hop(Edge("", "S"), Once)] + [Spot("y", EMPTY)] + [Spot("z", EMPTY)] + [Spot("a", EMPTY)];
            Vars(items, [true] + [true] + [true] + [false], 1) == [Inner, Inner, Own("a")]
  {
    var hop, y, z, a := Hop(Edge("", "S"), Once), Spot("y", EMPTY), Spot("z", EMPTY), Spot("a", EMPTY);
    var s1, s2, s3 := [hop], [hop] + [y], [hop] + [y] + [z];
    var m1, m2, m3 := [true], [true] + [true], [true] + [true] + [true];
    assert [] + s1 == s1 && [] + m1 == m1 && Vars([], [], 1) == [] && HopsOf([]) == [];
    hide Vars, HopsOf;
    VarsMore([], [], hop, true, 1);
    VarsMore(s1, m1, y, true, 1);
    VarsMore(s2, m2, z, true, 1);
    VarsMore(s3, m3, a, false, 1);
  }

  lemma PairSupported()
    ensures AllSupported(map[], Parts([BOTH, NodeF("a", EMPTY, Once)], false))
  {
    var a: Factor := NodeF("a", EMPTY, Once);
    var ts: Term, t1: Term, none: Term := [BOTH, a], [a], [];
    assert ts[1..] == t1 && t1[1..] == none;
    PairItems();
    PairParts();
    assert Parts(t1, false) == [(a, false)];
    assert FactorParts(BOTH, false) == [(BOTH, false)] + Parts(PAIR, true);
    assert Parts(ts, false) == FactorParts(BOTH, false) + Parts(t1, false);
    hide Parts, AllSupported;
    OnePart(map[], a, false);
    OnePart(map[], BOTH, false);
    SupportedConcat(map[], [(BOTH, false)], Parts(PAIR, true));
    SupportedConcat(map[], FactorParts(BOTH, false), [(a, false)]);
  }

  lemma PairParts()
    ensures AllSupported(map[], Parts(PAIR, true))
  {
    var e, y, z := EdgeF(Edge("", "S"), Once), NodeF("y", EMPTY, Once), NodeF("z", EMPTY, Once);
    var none: Term, t1: Term, t2: Term := [], [z], [y, z];
    assert t1[1..] == none && Parts(t1, true) == [(z, true)];
    assert t2[1..] == t1 && Parts(t2, true) == [(y, true), (z, true)];
    assert PAIR[1..] == t2 && Parts(PAIR, true) == [(e, true), (y, true), (z, true)];
  }

  // ------------------------------------------------------------------ the whole translation

  /** The chain and the lists re-bound after it; None is a refusal. */
  datatype Translation = Translation(chain: seq<Event>, lists: seq<Binding>, next: nat)

  method ResolveAll(a: Aliases, names: seq<Name>) returns (r: seq<Name>)
    requires Decreasing(a)
    ensures |r| == |names| && forall n :: 0 <= n < |names| ==> r[n] == Resolve(a, names[n])
  {
    r := [];
    for n := 0 to |names|
      invariant |r| == n && forall m :: 0 <= m < n ==> r[m] == Resolve(a, names[m])
    {
      var name := ResolveName(a, names[n]);
      r := r + [name];
    }
  }

  /** The whole translation. It is refused exactly as said above; otherwise the chain shows the user's names where they
      are declared, and every list names, entry by entry, the elements its variable collects. */
  method TranslatePathTerm(counts: map<nat, nat>, ts: Term, next: nat) returns (r: Option<Translation>)
    ensures r.Some? <==> AllSupported(counts, Parts(ts, false)) && RunsMerge(Items(counts, ts), Marks(counts, ts))
    ensures r.Some? <==> Translates(counts, ts, next)
    ensures r.Some? ==>
      var items, edges, nodes := Items(counts, ts), Places(counts, ts, false), Places(counts, ts, true);
      && r.value.chain == Emitted(counts, ts, next) && r.value.next == FlatTerm(counts, ts, false, next).value.next
      && NamesShown(r.value.chain, items, Marks(counts, ts)) && FreshNames(r.value.chain)
      && |r.value.lists| == |edges| + |nodes|
      && (forall b :: 0 <= b < |edges| ==> Shows(r.value.chain, items, edges[b], r.value.lists[b]))
      && (forall b :: 0 <= b < |nodes| ==> Shows(r.value.chain, items, nodes[b], r.value.lists[|edges| + b]))
  {
    hide Fold, FlatTerm, Shows, Items, Places, Marks, Parts, AllSupported, RunsMerge, NamesShown, FreshNames, Increasing;
    Refusals(counts, ts, next);
    var flat := FlattenTerm(counts, ts, next);
    if flat.None? {
      return None;
    }
    var events, nodeLists, edgeLists := flat.value.events, flat.value.nodeLists, flat.value.edgeLists;
    var st := Emit(events);
    if st.None? {
      return None;
    }
    FlatInOrder(counts, ts, next);
    NamesHold(events);
    var lists := edgeLists;
    for b := 0 to |nodeLists|
      invariant |lists| == |edgeLists| + b && lists[..|edgeLists|] == edgeLists
      invariant forall c :: 0 <= c < b ==> Resolved(st.value.aliases, nodeLists[c], lists[|edgeLists| + c])
    {
      var names := ResolveAll(st.value.aliases, nodeLists[b].names);
      lists := lists + [Binding(nodeLists[b].variable, names)];
    }
    r := Some(Translation(Chain(st.value), lists, flat.value.next));
    ShowsNames(counts, ts, next);
    NamesAreFresh(events);
    EdgeListsShown(counts, ts, next);
    NodeListsShown(counts, ts, next, lists[|edgeLists|..]);
  }

  ghost predicate Resolved(a: Aliases, raw: Binding, list: Binding)
    requires Decreasing(a)
  {
    && list.variable == raw.variable && |list.names| == |raw.names|
    && forall n :: 0 <= n < |raw.names| ==> list.names[n] == Resolve(a, raw.names[n])
  }

  /** What the places of a kind and the raw lists of the flattening have to do with each other. */
  lemma ListFacts(counts: map<nat, nat>, ts: Term, next: nat, nodes: bool, b: nat)
    requires FlatTerm(counts, ts, false, next).Some? && b < |Places(counts, ts, nodes)|
    ensures var flat, p := FlatTerm(counts, ts, false, next).value, Places(counts, ts, nodes)[b];
            var lists := if nodes then flat.nodeLists else flat.edgeLists;
            && |lists| == |Places(counts, ts, nodes)| && lists[b].variable == p.variable && |lists[b].names| == |p.at|
            && Items(counts, ts) == Bones(flat.events)
            && forall r :: 0 <= r < |p.at| ==>
              && p.at[r] < |flat.events| && flat.events[p.at[r]].NodeEv? == nodes
              && lists[b].names[r] == EventName(flat.events[p.at[r]]) && lists[b].names[r] != Anonymous
  {
    hide FlatTerm, Items, Places;
    FlatLists(counts, ts, false, next, nodes);
    FlatSynth(counts, ts, false, next);
    FlatBones(counts, ts, false, next);
    PlacesPoint(counts, ts, nodes);
    assert Points(Items(counts, ts), Places(counts, ts, nodes)[b], nodes);
  }

  lemma NumLists(counts: map<nat, nat>, ts: Term, next: nat)
    requires FlatTerm(counts, ts, false, next).Some?
    ensures var flat := FlatTerm(counts, ts, false, next).value;
            |flat.nodeLists| == |Places(counts, ts, true)| && |flat.edgeLists| == |Places(counts, ts, false)|
  {
    hide FlatTerm, Places;
    FlatLists(counts, ts, false, next, true);
    FlatLists(counts, ts, false, next, false);
  }

  lemma EdgeListsShown(counts: map<nat, nat>, ts: Term, next: nat)
    requires FlatTerm(counts, ts, false, next).Some? && Fold(FlatTerm(counts, ts, false, next).value.events).Some?
    ensures var flat, edges := FlatTerm(counts, ts, false, next).value, Places(counts, ts, false);
            && |flat.edgeLists| == |edges|
            && forall b :: 0 <= b < |edges| ==> Shows(Chain(Fold(flat.events).value), Items(counts, ts), edges[b], flat.edgeLists[b])
  {
    hide FlatTerm, Items, Places, Fold, ShownAt;
    var es := FlatTerm(counts, ts, false, next).value.events;
    NumLists(counts, ts, next);
    forall b | 0 <= b < |Places(counts, ts, false)|
      ensures Shows(Chain(Fold(es).value), Items(counts, ts), Places(counts, ts, false)[b], FlatTerm(counts, ts, false, next).value.edgeLists[b])
    {
      ListFacts(counts, ts, next, false, b);
      var at := Places(counts, ts, false)[b].at;
      forall r | 0 <= r < |at|
        ensures ShownAt(Chain(Fold(es).value), Bones(es), at[r], EventName(es[at[r]]))
      {
        EdgeShown(es, at[r]);
      }
    }
  }

  lemma NodeListsShown(counts: map<nat, nat>, ts: Term, next: nat, lists: seq<Binding>)
    requires FlatTerm(counts, ts, false, next).Some? && Fold(FlatTerm(counts, ts, false, next).value.events).Some?
    requires var flat := FlatTerm(counts, ts, false, next).value; var st := Fold(flat.events).value;
             && Increasing(flat.events) && Decreasing(st.aliases) && |lists| == |flat.nodeLists|
             && forall b :: 0 <= b < |lists| ==> Resolved(st.aliases, flat.nodeLists[b], lists[b])
    ensures var flat, nodes := FlatTerm(counts, ts, false, next).value, Places(counts, ts, true);
            && |lists| == |nodes|
            && forall b :: 0 <= b < |nodes| ==> Shows(Chain(Fold(flat.events).value), Items(counts, ts), nodes[b], lists[b])
  {
    hide FlatTerm, Items, Places, Fold, ShownAt, Increasing;
    var flat := FlatTerm(counts, ts, false, next).value;
    var es := flat.events;
    var st := Fold(es).value;
    NumLists(counts, ts, next);
    forall b | 0 <= b < |lists|
      ensures Shows(Chain(st), Items(counts, ts), Places(counts, ts, true)[b], lists[b])
    {
      ListFacts(counts, ts, next, true, b);
      var at := Places(counts, ts, true)[b].at;
      assert Resolved(st.aliases, flat.nodeLists[b], lists[b]);
      forall r | 0 <= r < |at|
        ensures ShownAt(Chain(st), Bones(es), at[r], lists[b].names[r])
      {
        NodeShown(es, at[r]);
      }
    }
  }
}
