/** Merging juxtaposed node patterns and emitting the chain of a path term (gql/src/gql_transformer.cpp). */
module GqlChain {
  import opened Basics
  import opened GqlPath
  import opened GqlPattern
  import opened GqlFlatten

  // ------------------------------------------------------------------ merging two node patterns

  /** The node pattern collected so far; synth says that its name may still give way to a user's name. */
  datatype Acc = Acc(name: Name, synth: bool, filler: Filler)

  type Aliases = map<nat, Name>

  function Bare(f: Filler): bool { f.labels == "" && f.props == "" }

  /** Equal labels and properties keep the left filler, a bare side gives way, anything else is refused. */
  function MergeFiller(l: Filler, r: Filler): Option<Filler> {
    if l.labels == r.labels && l.props == r.props then Some(l)
    else if Bare(l) then Some(r)
    else if Bare(r) then Some(l)
    else None
  }

  datatype Named = Named(name: Name, synth: bool, aliases: Aliases)

  /** A name beats none, a user's name beats a generated one, the left generated name beats the right; two
      different user names are refused. The name that loses becomes an alias. */
  function MergeName(acc: Acc, b: Name, aliases: Aliases): Option<Named> {
    if acc.name == b then Some(Named(acc.name, acc.synth, aliases))
    else if acc.name == Anonymous then Some(Named(b, b.Synth?, aliases))
    else if b == Anonymous then Some(Named(acc.name, acc.synth, aliases))
    else if acc.synth && acc.name.Synth? && !b.Synth? then Some(Named(b, false, aliases[acc.name.id := b]))
    else if b.Synth? then Some(Named(acc.name, false, aliases[b.id := acc.name]))
    else None
  }

  // ------------------------------------------------------------------ emitting the chain

  datatype State = State(out: seq<Event>, pending: Option<Acc>, aliases: Aliases)

  function NodeOf(acc: Acc): Event { NodeEv(acc.name, "", acc.filler, false) }

  /** One event: a node joins the pending one, an edge flushes it, with an implicit node if there is none. */
  function Step(st: State, e: Event): Option<State> {
    match e
    case NodeEv(name, _, filler, _) =>
      if st.pending.None? then Some(st.(pending := Some(Acc(name, name.Synth?, filler))))
      else
        var n := MergeName(st.pending.value, name, st.aliases);
        var f := MergeFiller(st.pending.value.filler, filler);
        if n.None? || f.None? then None
        else Some(State(st.out, Some(Acc(n.value.name, n.value.synth, f.value)), n.value.aliases))
    case EdgeEv(_, _, _) =>
      var node := if st.pending.Some? then NodeOf(st.pending.value) else NodeEv(Anonymous, "", EMPTY, false);
      Some(State(st.out + [node, e], None, st.aliases))
  }

  function Fold(es: seq<Event>): Option<State> {
    if es == [] then Some(State([], None, map[]))
    else
      var st := Fold(es[..|es| - 1]);
      if st.None? then None else Step(st.value, es[|es| - 1])
  }

  function Chain(st: State): seq<Event> {
    if st.pending.Some? then st.out + [NodeOf(st.pending.value)] else st.out
  }

  /** The emission loop. */
  method Emit(es: seq<Event>) returns (r: Option<State>)
    ensures r == Fold(es)
  {
    var st := State([], None, map[]);
    for i := 0 to |es|
      invariant Fold(es[..i]) == Some(st)
    {
      assert es[..i + 1][..i] == es[..i];
      var next := Step(st, es[i]);
      if next.None? {
        FoldStops(es, i + 1);
        return None;
      }
      st := next.value;
    }
    assert es[..|es|] == es;
    r := Some(st);
  }

  lemma {:induction false} FoldStops(es: seq<Event>, i: nat)
    requires i <= |es| && Fold(es[..i]).None?
    ensures Fold(es).None?
    decreases |es| - i
  {
    if i == |es| {
      assert es[..i] == es;
    } else {
      assert es[..i + 1][..i] == es[..i];
      FoldStops(es, i + 1);
    }
  }

  // ------------------------------------------------------------------ shape of the chain

  /** Node, edge, node, edge and so on. */
  ghost predicate Alternates(chain: seq<Event>) {
    forall x :: 0 <= x < |chain| ==> (chain[x].NodeEv? <==> x % 2 == 0)
  }

  /** The chain alternates, with one edge per edge event; it ends with a node, as a pattern must, exactly if
      the last event is a node. */
  lemma ChainShape(es: seq<Event>)
    requires Fold(es).Some?
    ensures var st := Fold(es).value;
            && Alternates(Chain(st)) && |st.out| == 2 * NumEdges(es)
            && (|Chain(st)| % 2 == 1 <==> es != [] && es[|es| - 1].NodeEv?)
  {
    hide Fold;
    OutShape(es);
    PendingNode(es);
    var st := Fold(es).value;
    var chain := Chain(st);
    forall x | 0 <= x < |chain|
      ensures chain[x].NodeEv? <==> x % 2 == 0
    {
      assert x < |st.out| ==> chain[x] == st.out[x];
    }
  }

  lemma PendingNode(es: seq<Event>)
    requires Fold(es).Some?
    ensures Fold(es).value.pending.Some? <==> es != [] && es[|es| - 1].NodeEv?
  {
  }

  lemma {:induction false} OutShape(es: seq<Event>)
    requires Fold(es).Some?
    ensures Alternates(Fold(es).value.out) && |Fold(es).value.out| == 2 * NumEdges(es)
    decreases |es|
  {
    if es != [] {
      var init, e := es[..|es| - 1], es[|es| - 1];
      OutShape(init);
      assert es == init + [e];
      NumEdgesConcat(init, [e]);
      assert [e][1..] == [];
      var out := Fold(init).value.out;
      if e.EdgeEv? {
        MoreAlternates(out, Fold(es).value.out[|out|], e);
      }
    }
  }

  lemma MoreAlternates(out: seq<Event>, node: Event, e: Event)
    requires Alternates(out) && |out| % 2 == 0 && node.NodeEv? && e.EdgeEv?
    ensures Alternates(out + [node, e])
  {
    var all := out + [node, e];
    forall x | 0 <= x < |all|
      ensures all[x].NodeEv? <==> x % 2 == 0
    {
      assert x < |out| ==> all[x] == out[x];
    }
  }

  // ------------------------------------------------------------------ names

  /** Generated names are numbered from left to right. */
  ghost function Bound(es: seq<Event>): nat {
    if es == [] then 0
    else
      var b := Bound(es[..|es| - 1]);
      match EventName(es[|es| - 1]) case Synth(id) => if id + 1 > b then id + 1 else b case _ => b
  }

  ghost predicate Increasing(es: seq<Event>) {
    es == [] || (
      && Increasing(es[..|es| - 1])
      && (EventName(es[|es| - 1]).Synth? ==> EventName(es[|es| - 1]).id >= Bound(es[..|es| - 1])))
  }

  /** An alias leads to a user's name or to an earlier generated one. */
  ghost predicate Decreasing(a: Aliases) {
    forall k :: k in a ==> a[k].User? || (a[k].Synth? && a[k].id < k)
  }

  ghost function Resolve(a: Aliases, n: Name): (r: Name)
    requires Decreasing(a)
    ensures r == Anonymous <==> n == Anonymous
    ensures r.Synth? ==> r.id !in a && n.Synth? && r.id <= n.id
    decreases if n.Synth? then n.id + 1 else 0
  {
    if n.Synth? && n.id in a then Resolve(a, a[n.id]) else n
  }

  /** Alias chasing ends. */
  method ResolveName(a: Aliases, n: Name) returns (r: Name)
    requires Decreasing(a)
    ensures r == Resolve(a, n)
  {
    r := n;
    while r.Synth? && r.id in a && a[r.id] != r
      invariant Resolve(a, n) == Resolve(a, r)
      decreases if r.Synth? then r.id + 1 else 0
    {
      r := a[r.id];
    }
  }

  /** A new alias for a name that had none redirects just what led to that name. */
  lemma {:induction false} ResolveAdd(a: Aliases, k: nat, v: Name, n: Name)
    requires Decreasing(a) && Decreasing(a[k := v]) && k !in a
    requires v.Synth? ==> v.id !in a && v.id != k
    ensures Resolve(a[k := v], n) == if Resolve(a, n) == Synth(k) then v else Resolve(a, n)
    decreases if n.Synth? then n.id + 1 else 0
  {
    if n.Synth? && n.id in a {
      ResolveAdd(a, k, v, a[n.id]);
    }
  }

  /** The name of node q of the chain so far. */
  ghost function NodeName(st: State, q: nat): Name {
    if 2 * q < |st.out| then EventName(st.out[2 * q])
    else if st.pending.Some? then st.pending.value.name else Anonymous
  }

  /** Every named node event leads to the name its place in the chain carries. */
  ghost predicate NamesResolve(es: seq<Event>, st: State)
    requires Decreasing(st.aliases)
  {
    forall x :: 0 <= x < |es| && es[x].NodeEv? && es[x].name != Anonymous ==>
      Resolve(st.aliases, es[x].name) == NodeName(st, NumEdges(es[..x]))
  }

  /** Names already in the chain are final, numbered below bound, and not the pending one. */
  ghost predicate NamesFinal(st: State, bound: nat) {
    && Decreasing(st.aliases) && (forall k :: k in st.aliases ==> k < bound)
    && (forall q: nat :: NodeName(st, q).Synth? ==> NodeName(st, q).id < bound && NodeName(st, q).id !in st.aliases)
    && (forall q: nat :: 2 * q < |st.out| && st.pending.Some? && st.pending.value.name.Synth? ==>
          NodeName(st, q) != st.pending.value.name)
    && (st.pending.Some? && st.pending.value.synth ==> st.pending.value.name.Synth?)
  }

  lemma PositionBound(es: seq<Event>, x: nat)
    requires x <= |es|
    ensures NumEdges(es[..x]) <= NumEdges(es)
  {
    assert es == es[..x] + es[x..];
    NumEdgesConcat(es[..x], es[x..]);
  }

  /** The emission step for a node that joins the pending one. */
  lemma MergeNames(es: seq<Event>, st: State, e: Event)
    requires e.NodeEv? && st.pending.Some? && Step(st, e).Some? && |st.out| == 2 * NumEdges(es)
    requires NamesFinal(st, Bound(es)) && NamesResolve(es, st) && (e.name.Synth? ==> e.name.id >= Bound(es))
    ensures NamesFinal(Step(st, e).value, Bound(es + [e])) && NamesResolve(es + [e], Step(st, e).value)
  {
    var st' := Step(st, e).value;
    var acc := st.pending.value;
    var all := es + [e];
    assert all[..|es|] == es;
    MergeFinal(st, e, Bound(es), Bound(all));
    forall x | 0 <= x < |all| && all[x].NodeEv? && all[x].name != Anonymous
      ensures Resolve(st'.aliases, all[x].name) == NodeName(st', NumEdges(all[..x]))
    {
      PositionBound(es, x);
      if x < |es| {
        assert all[..x] == es[..x] && all[x] == es[x];
        MergeOne(st, e, Bound(es), es[x].name, NumEdges(es[..x]));
      } else {
        MergeNew(st, e, Bound(es));
      }
    }
  }

  lemma MergeFinal(st: State, e: Event, bound: nat, bound': nat)
    requires e.NodeEv? && st.pending.Some? && Step(st, e).Some? && NamesFinal(st, bound)
    requires e.name.Synth? ==> e.name.id >= bound && bound' == e.name.id + 1
    requires bound <= bound'
    ensures NamesFinal(Step(st, e).value, bound')
  {
    var st', acc := Step(st, e).value, st.pending.value;
    assert NodeName(st, |st.out|) == acc.name;
    forall q: nat
      ensures NodeName(st', q) == if 2 * q < |st.out| then NodeName(st, q) else st'.pending.value.name
    {
    }
  }

  /** A name that led to place q still does. */
  lemma MergeOne(st: State, e: Event, bound: nat, n: Name, q: nat)
    requires e.NodeEv? && st.pending.Some? && Step(st, e).Some? && NamesFinal(st, bound)
    requires (e.name.Synth? ==> e.name.id >= bound) && n != Anonymous && Resolve(st.aliases, n) == NodeName(st, q)
    requires Decreasing(Step(st, e).value.aliases)
    ensures Resolve(Step(st, e).value.aliases, n) == NodeName(Step(st, e).value, q)
  {
    var st', acc := Step(st, e).value, st.pending.value;
    assert NodeName(st, |st.out|) == acc.name;
    if st'.aliases != st.aliases {
      if acc.synth && !e.name.Synth? {
        ResolveAdd(st.aliases, acc.name.id, e.name, n);
      } else {
        ResolveAdd(st.aliases, e.name.id, acc.name, n);
      }
    }
  }

  lemma MergeNew(st: State, e: Event, bound: nat)
    requires e.NodeEv? && st.pending.Some? && Step(st, e).Some? && NamesFinal(st, bound)
    requires (e.name.Synth? ==> e.name.id >= bound) && e.name != Anonymous && Decreasing(Step(st, e).value.aliases)
    ensures Resolve(Step(st, e).value.aliases, e.name) == Step(st, e).value.pending.value.name
  {
    assert NodeName(st, |st.out|) == st.pending.value.name;
  }

  lemma {:induction false} NamesHold(es: seq<Event>)
    requires Fold(es).Some? && Increasing(es)
    ensures NamesFinal(Fold(es).value, Bound(es)) && NamesResolve(es, Fold(es).value)
    decreases |es|
  {
    if es != [] {
      var init, e := es[..|es| - 1], es[|es| - 1];
      assert es == init + [e];
      NamesHold(init);
      OutShape(init);
      var st := Fold(init).value;
      hide Fold;
      if e.NodeEv? && st.pending.Some? {
        MergeNames(init, st, e);
      } else {
        FlushNames(init, st, e);
      }
    }
  }

  lemma FlushNames(es: seq<Event>, st: State, e: Event)
    requires (e.EdgeEv? || st.pending.None?) && Step(st, e).Some? && |st.out| == 2 * NumEdges(es)
    requires NamesFinal(st, Bound(es)) && NamesResolve(es, st)
    requires e.NodeEv? && e.name.Synth? ==> e.name.id >= Bound(es)
    ensures NamesFinal(Step(st, e).value, Bound(es + [e])) && NamesResolve(es + [e], Step(st, e).value)
  {
    var st' := Step(st, e).value;
    var all := es + [e];
    assert all[..|es|] == es;
    forall q: nat
      ensures q <= NumEdges(es) && (e.EdgeEv? || q < NumEdges(es)) ==> NodeName(st', q) == NodeName(st, q)
    {
    }
    forall x | 0 <= x < |all| && all[x].NodeEv? && all[x].name != Anonymous
      ensures Resolve(st'.aliases, all[x].name) == NodeName(st', NumEdges(all[..x]))
    {
      PositionBound(es, x);
      if x < |es| {
        assert all[..x] == es[..x] && all[x] == es[x];
      }
    }
  }

  // ------------------------------------------------------------------ flattening numbers names in order

  lemma IncreasingMore(pre: seq<Event>, e: Event, next: nat)
    requires Increasing(pre) && Bound(pre) <= next && (EventName(e).Synth? ==> EventName(e).id == next)
    ensures Increasing(pre + [e]) && Bound(pre + [e]) <= next + (if EventName(e).Synth? then 1 else 0)
  {
    assert (pre + [e])[..|pre|] == pre;
  }

  lemma {:induction false} CopyIncreases(pre: seq<Event>, inner: seq<Event>, next: nat)
    requires Increasing(pre) && Bound(pre) <= next
    ensures var c := Copy(inner, next); next <= c.1 && Increasing(pre + c.0) && Bound(pre + c.0) <= c.1
    decreases inner
  {
    hide Increasing, Bound;
    if inner == [] {
      assert pre + [] == pre;
    } else {
      var named := Declared(inner[0]) != "";
      var e := Renamed(inner[0], if named then Synth(next) else Anonymous);
      var next' := if named then next + 1 else next;
      IncreasingMore(pre, e, next);
      CopyIncreases(pre + [e], inner[1..], next');
      assert pre + Copy(inner, next).0 == (pre + [e]) + Copy(inner[1..], next').0;
    }
  }

  lemma {:induction false} CopiesIncrease(pre: seq<Event>, inner: seq<Event>, k: nat, next: nat)
    requires Increasing(pre) && Bound(pre) <= next
    ensures var c := Copies(inner, k, next); next <= c.1 && Increasing(pre + c.0) && Bound(pre + c.0) <= c.1
    decreases k
  {
    hide Increasing, Bound, Copy;
    if k == 0 {
      assert pre + [] == pre;
    } else {
      var before := Copies(inner, k - 1, next);
      CopiesIncrease(pre, inner, k - 1, next);
      CopyIncreases(pre + before.0, inner, before.1);
      assert pre + (before.0 + Copy(inner, before.1).0) == (pre + before.0) + Copy(inner, before.1).0;
    }
  }

  lemma SlotIncreases(pre: seq<Event>, edge: Edge, q: Quant, next: nat)
    requires Increasing(pre) && Bound(pre) <= next
    ensures var s := Slot(edge, q, next); next <= s.next && Increasing(pre + s.events) && Bound(pre + s.events) <= s.next
  {
    hide Increasing, Bound;
    var events := Slot(edge, q, next).events;
    IncreasingMore(pre, events[0], next);
    assert events == [events[0]];
  }

  lemma {:induction false} FlatIncreases(pre: seq<Event>, counts: map<nat, nat>, ts: Term, outer: bool, next: nat)
    requires FlatTerm(counts, ts, outer, next).Some? && Increasing(pre) && Bound(pre) <= next
    ensures var r := FlatTerm(counts, ts, outer, next).value;
            next <= r.next && Increasing(pre + r.events) && Bound(pre + r.events) <= r.next
    decreases ts, 0
  {
    hide Increasing, Bound, FlatFactor;
    if ts == [] {
      assert pre + [] == pre;
    } else {
      var a := FlatFactor(counts, ts[0], outer, next).value;
      var b := FlatTerm(counts, ts[1..], outer, a.next).value;
      FlatFactorIncreases(pre, counts, ts[0], outer, next);
      FlatIncreases(pre + a.events, counts, ts[1..], outer, a.next);
      assert pre + (a.events + b.events) == (pre + a.events) + b.events;
    }
  }

  lemma {:induction false} FlatFactorIncreases(pre: seq<Event>, counts: map<nat, nat>, f: Factor, outer: bool, next: nat)
    requires FlatFactor(counts, f, outer, next).Some? && Increasing(pre) && Bound(pre) <= next
    ensures var r := FlatFactor(counts, f, outer, next).value;
            next <= r.next && Increasing(pre + r.events) && Bound(pre + r.events) <= r.next
    decreases f, 0
  {
    hide Increasing, Bound, Repeats;
    match f {
      case NodeF(declared, filler, _) => IncreasingMore(pre, NodeEv(NameOf(declared), declared, filler, outer), next);
      case EdgeF(edge, q) =>
        IncreasingMore(pre, EdgeEv(edge, q, Anonymous), next);
        SlotIncreases(pre, edge, q, next);
      case ParenF(_, term, q) =>
        FlatIncreases(pre, counts, term, q != Once || outer, next);
        var inner := FlatTerm(counts, term, q != Once || outer, next).value;
        if q != Once && Expands(f) {
          CopiesIncrease(pre, inner.events, Repeats(counts, f).value, inner.next);
        } else if q != Once {
          var bare := NodeEv(Anonymous, "", EMPTY, true);
          var s := Slot(TheEdge(inner.events), q, inner.next);
          IncreasingMore(pre, bare, inner.next);
          SlotIncreases(pre + [bare], TheEdge(inner.events), q, inner.next);
          IncreasingMore(pre + [bare] + s.events, bare, s.next);
          assert pre + ([bare] + s.events + [bare]) == pre + [bare] + s.events + [bare];
        }
    }
  }

  // ------------------------------------------------------------------ what the lists name

  /** Edge events keep their place and their name. */
  lemma {:induction false} EdgesInOrder(es: seq<Event>, x: nat)
    requires Fold(es).Some? && x < |es| && es[x].EdgeEv?
    ensures var out, q := Fold(es).value.out, NumEdges(es[..x]);
            2 * q + 1 < |out| && out[2 * q + 1] == es[x]
    decreases |es|
  {
    hide MergeName, MergeFiller, NumEdges;
    var init := es[..|es| - 1];
    OutShape(init);
    if x < |es| - 1 {
      EdgesInOrder(init, x);
      assert init[..x] == es[..x];
    } else {
      assert es[..x] == init;
    }
  }

  /** NodeName is what the chain shows. */
  lemma ChainShowsName(es: seq<Event>, q: nat)
    requires Fold(es).Some? && 2 * q < |Chain(Fold(es).value)|
    ensures EventName(Chain(Fold(es).value)[2 * q]) == NodeName(Fold(es).value, q)
  {
    OutShape(es);
  }

  lemma NodeHasPlace(es: seq<Event>, x: nat)
    requires Fold(es).Some? && x < |es| && es[x].NodeEv?
    ensures 2 * NumEdges(es[..x]) < |Chain(Fold(es).value)|
  {
    hide Fold, NumEdges;
    OutShape(es);
    PendingNode(es);
    PositionBound(es, x);
    if es[|es| - 1].EdgeEv? {
      EdgesInOrder(es, |es| - 1);
      PositionBound(es[..|es| - 1], x);
      assert es[..|es| - 1][..x] == es[..x];
    }
  }

  /** The chain shows this name at this element of the unrolled pattern. */
  ghost predicate ShownAt(chain: seq<Event>, items: seq<Item>, x: nat, name: Name)
    requires x < |items|
  {
    var at := 2 * Rank(items, x) + (if items[x].Hop? then 1 else 0);
    name != Anonymous && at < |chain| && chain[at].EdgeEv? == items[x].Hop? && EventName(chain[at]) == name
  }

  /** One entry per element the variable collects, each the name the chain shows there. */
  ghost predicate Shows(chain: seq<Event>, items: seq<Item>, p: Place, list: Binding) {
    && list.variable == p.variable && |list.names| == |p.at|
    && forall r :: 0 <= r < |p.at| ==> p.at[r] < |items| && ShownAt(chain, items, p.at[r], list.names[r])
  }

  lemma EdgeShown(es: seq<Event>, x: nat)
    requires Fold(es).Some? && x < |es| && es[x].EdgeEv? && es[x].rename != Anonymous
    ensures ShownAt(Chain(Fold(es).value), Bones(es), x, es[x].rename)
  {
    hide Fold, NumEdges, Rank;
    EdgesInOrder(es, x);
    RankCounts(es, x);
  }

  lemma NodeShown(es: seq<Event>, x: nat)
    requires Fold(es).Some? && Increasing(es) && x < |es| && es[x].NodeEv? && es[x].name != Anonymous
    ensures Decreasing(Fold(es).value.aliases)
    ensures ShownAt(Chain(Fold(es).value), Bones(es), x, Resolve(Fold(es).value.aliases, es[x].name))
  {
    hide *;
    NameHolds(es, x);
    var st, q := Fold(es).value, NumEdges(es[..x]);
    NodeHasPlace(es, x);
    RankCounts(es, x);
    ChainShowsName(es, q);
    ChainShape(es);
    BoneAt(es, x);
    ShownNode(Chain(st), Bones(es), x, Resolve(st.aliases, es[x].name), q);
  }

  lemma NameHolds(es: seq<Event>, x: nat)
    requires Fold(es).Some? && Increasing(es) && x < |es| && es[x].NodeEv? && es[x].name != Anonymous
    ensures Decreasing(Fold(es).value.aliases)
    ensures Resolve(Fold(es).value.aliases, es[x].name) == NodeName(Fold(es).value, NumEdges(es[..x]))
  {
    hide Fold, NumEdges, Increasing, Resolve, NodeName;
    NamesHold(es);
  }

  lemma ShownNode(chain: seq<Event>, items: seq<Item>, x: nat, name: Name, q: nat)
    requires x < |items| && items[x].Spot? && Rank(items, x) == q && 2 * q < |chain| && Alternates(chain)
    requires EventName(chain[2 * q]) == name && name != Anonymous
    ensures ShownAt(chain, items, x, name)
  {
  }
}
