/** The flattening of a path term as the translator does it: event list, name lists and the running number
    are updated in place (gql/src/gql_transformer.cpp). */
module GqlFlatten {
  import opened Basics
  import opened GqlPath

  /** What is there already, followed by what a rest contributes. */
  ghost function After(f: Flat, rest: Option<Flat>): Option<Flat> {
    if rest.None? then None
    else Some(Flat(f.events + rest.value.events, f.nodeLists + rest.value.nodeLists, f.edgeLists + rest.value.edgeLists, rest.value.next))
  }

  /** A quantified interior binds nothing itself. */
  lemma {:induction false} InteriorNoLists(counts: map<nat, nat>, ts: Term, next: nat)
    requires FlatTerm(counts, ts, true, next).Some?
    ensures FlatTerm(counts, ts, true, next).value.nodeLists == [] && FlatTerm(counts, ts, true, next).value.edgeLists == []
    decreases ts, 0
  {
    if ts != [] {
      InteriorFactorNoLists(counts, ts[0], next);
      InteriorNoLists(counts, ts[1..], FlatFactor(counts, ts[0], true, next).value.next);
    }
  }

  lemma {:induction false} InteriorFactorNoLists(counts: map<nat, nat>, f: Factor, next: nat)
    requires FlatFactor(counts, f, true, next).Some?
    ensures FlatFactor(counts, f, true, next).value.nodeLists == [] && FlatFactor(counts, f, true, next).value.edgeLists == []
    decreases f, 0
  {
    if f.ParenF? {
      InteriorNoLists(counts, f.term, next);
    }
  }

  lemma AfterStep(counts: map<nat, nat>, f: Flat, ts: Term, outer: bool, i: nat)
    requires i < |ts|
    ensures var a := FlatFactor(counts, ts[i], outer, f.next);
            After(f, FlatTerm(counts, ts[i..], outer, f.next)) ==
            if a.None? then None else After(After(f, a).value, FlatTerm(counts, ts[i + 1..], outer, a.value.next))
  {
    hide FlatFactor;
    assert ts[i..][0] == ts[i] && ts[i..][1..] == ts[i + 1..];
    var a := FlatFactor(counts, ts[i], outer, f.next);
    if a.Some? && FlatTerm(counts, ts[i + 1..], outer, a.value.next).Some? {
      var b := FlatTerm(counts, ts[i + 1..], outer, a.value.next).value;
      assert f.events + (a.value.events + b.events) == (f.events + a.value.events) + b.events;
      assert f.nodeLists + (a.value.nodeLists + b.nodeLists) == (f.nodeLists + a.value.nodeLists) + b.nodeLists;
      assert f.edgeLists + (a.value.edgeLists + b.edgeLists) == (f.edgeLists + a.value.edgeLists) + b.edgeLists;
    }
  }

  class Flattener {
    const counts: map<nat, nat>
    var events: seq<Event>
    var nodeLists: seq<Binding>
    var edgeLists: seq<Binding>
    var next: nat

    ghost function State(): Flat
      reads this
    {
      Flat(events, nodeLists, edgeLists, next)
    }

    constructor (counts: map<nat, nat>, next: nat)
      ensures State() == Flat([], [], [], next) && this.counts == counts
    {
      this.counts, this.next := counts, next;
      events, nodeLists, edgeLists := [], [], [];
    }

    /** Appends the events of a term, or refuses. */
    method Flatten(ts: Term, outer: bool) returns (ok: bool)
      modifies this
      ensures var r := After(old(State()), FlatTerm(counts, ts, outer, old(next))); ok == r.Some? && (ok ==> State() == r.value)
      decreases ts, 1
    {
      hide FlatFactor, FlatTerm;
      assert ts[0..] == ts;
      for i := 0 to |ts|
        invariant After(old(State()), FlatTerm(counts, ts, outer, old(next))) == After(State(), FlatTerm(counts, ts[i..], outer, next))
      {
        AfterStep(counts, State(), ts, outer, i);
        ok := FlattenFactor(ts[i], outer);
        if !ok {
          return;
        }
      }
      NothingMore(counts, State(), ts, outer);
      ok := true;
    }

    method FlattenFactor(f: Factor, outer: bool) returns (ok: bool)
      modifies this
      ensures var r := After(old(State()), FlatFactor(counts, f, outer, old(next))); ok == r.Some? && (ok ==> State() == r.value)
      decreases f, 1
    {
      match f
      case OtherF => ok := false;
      case NodeF(declared, filler, q) =>
        ok := q == Once && (outer ==> filler.cond == "");
        if ok {
          events := events + [NodeEv(NameOf(declared), declared, filler, outer)];
        }
      case EdgeF(edge, q) =>
        ok := q == Once || !outer;
        if ok && q == Once {
          events := events + [EdgeEv(edge, q, Anonymous)];
        } else if ok {
          PushSlot(edge, q);
        }
      case ParenF(_, _, _) =>
        ok := FlattenParen(f, outer);
    }

    /** A variable-length slot, renamed if its variable is declared. */
    method PushSlot(edge: Edge, q: Quant)
      modifies this
      ensures State() == After(old(State()), Some(Slot(edge, q, old(next)))).value
    {
      if edge.declared == "" {
        events := events + [EdgeEv(edge, q, Anonymous)];
      } else {
        events := events + [EdgeEv(edge, q, Synth(next))];
        edgeLists := edgeLists + [Binding(edge.declared, [Synth(next)])];
        next := next + 1;
      }
    }

    /** Flattens the interior, then takes its events back to collapse or repeat them. */
    method FlattenParen(f: Factor, outer: bool) returns (ok: bool)
      requires f.ParenF?
      modifies this
      ensures var r := After(old(State()), FlatFactor(counts, f, outer, old(next))); ok == r.Some? && (ok ==> State() == r.value)
      decreases f, 0
    {
      if f.quant != Once && outer {
        return false;
      }
      var before := |events|;
      ok := Flatten(f.term, f.quant != Once || outer);
      if !ok || f.quant == Once {
        return;
      }
      InteriorNoLists(counts, f.term, old(next));
      InteriorShape(counts, f.term, old(next));
      ghost var flat := FlatTerm(counts, f.term, true, old(next)).value;
      var inner := events[before..];
      events := events[..before];
      assert inner == flat.events && events == old(events);
      assert nodeLists == old(nodeLists) && edgeLists == old(edgeLists);
      var innerEdges, nodeFillers := CountInterior(inner);
      if innerEdges == 0 {
        return false;
      }
      if innerEdges == 1 && !nodeFillers {
        Collapse(TheEdge(inner), f.quant);
        return true;
      }
      var repeats := Repeats(counts, f);
      if repeats.None? {
        return false;
      }
      Repeat(inner, repeats.value);
      return true;
    }

    method Collapse(edge: Edge, q: Quant)
      modifies this
      ensures var e, bare := Slot(edge, q, old(next)), NodeEv(Anonymous, "", Filler("", "", ""), true);
              State() == After(old(State()), Some(e.(events := [bare] + e.events + [bare]))).value
    {
      var bare := NodeEv(Anonymous, "", Filler("", "", ""), true);
      events := events + [bare];
      PushSlot(edge, q);
      events := events + [bare];
      ghost var e := Slot(edge, q, old(next));
      assert events == old(events) + ([bare] + e.events + [bare]);
    }

    /** One repetition: pushes the interior with fresh names. */
    method PushCopy(inner: seq<Event>) returns (names: seq<Name>)
      modifies this`events, this`next
      ensures events == old(events) + Copy(inner, old(next)).0 && next == Copy(inner, old(next)).1
      ensures |names| == |inner| && forall x :: 0 <= x < |inner| ==> names[x] == EventName(Copy(inner, old(next)).0[x])
    {
      hide Copy;
      names := [];
      var done: seq<Event>, n: nat := [], next;
      ghost var whole := Copy(inner, next);
      assert inner[0..] == inner;
      CopiedNone(inner, next);
      for i := 0 to |inner|
        invariant events == old(events) && |done| == |names| == i && Copied(done, inner[i..], n) == whole
        invariant forall x :: 0 <= x < i ==> names[x] == EventName(done[x])
      {
        var name := if Declared(inner[i]) == "" then Anonymous else Synth(n);
        var copy := Renamed(inner[i], name);
        CopiedOne(done, inner, i, n);
        NamedCopy(inner[i], name);
        done, names := done + [copy], names + [name];
        n := if name == Anonymous then n else n + 1;
      }
      CopiedAll(done, inner, n);
      assert whole.0 == done && whole.1 == n;
      events, next := events + done, n;
    }

    /** All repetitions, then the lists of the interior's variables. */
    method Repeat(inner: seq<Event>, k: nat)
      modifies this
      ensures State() == After(old(State()), Some(Repeated(inner, k, old(next)))).value
    {
      hide Copy, Lists;
      var names: seq<seq<Name>> := seq(|inner|, _ => []);
      ghost var copies := Copies(inner, 0, next);
      assert events + copies.0 == events;
      for rep := 0 to k
        invariant copies == Copies(inner, rep, old(next)) && events == old(events) + copies.0 && next == copies.1
        invariant nodeLists == old(nodeLists) && edgeLists == old(edgeLists)
        invariant |names| == |inner| && forall x :: 0 <= x < |inner| ==> names[x] == NamesOf(copies.0, |inner|, rep, x)
      {
        ghost var last := Copy(inner, next);
        var added := PushCopy(inner);
        ghost var more := Copies(inner, rep + 1, old(next));
        assert events == old(events) + more.0;
        NamesGrow(inner, copies.0, last.0, rep, names, added);
        names := seq(|inner|, x requires 0 <= x < |inner| => names[x] + [added[x]]);
        copies := more;
      }
      var nodes := Bindings(inner, names, true, copies.0, k);
      var edges := Bindings(inner, names, false, copies.0, k);
      nodeLists := nodeLists + nodes;
      edgeLists := edgeLists + edges;
    }
  }

  lemma NothingMore(counts: map<nat, nat>, f: Flat, ts: Term, outer: bool)
    ensures After(f, FlatTerm(counts, ts[|ts|..], outer, f.next)) == Some(f)
  {
    assert ts[|ts|..] == [];
    assert f.events + [] == f.events && f.nodeLists + [] == f.nodeLists && f.edgeLists + [] == f.edgeLists;
  }

  /** A copy under way: the events done, then the copy of the rest. */
  ghost function Copied(done: seq<Event>, rest: seq<Event>, next: nat): (seq<Event>, nat) {
    (done + Copy(rest, next).0, Copy(rest, next).1)
  }

  lemma CopiedNone(inner: seq<Event>, next: nat)
    ensures Copied([], inner, next) == Copy(inner, next)
  {
    assert [] + Copy(inner, next).0 == Copy(inner, next).0;
  }

  lemma CopiedAll(done: seq<Event>, inner: seq<Event>, next: nat)
    ensures Copied(done, inner[|inner|..], next) == (done, next)
  {
    assert inner[|inner|..] == [] && done + [] == done;
  }

  lemma CopiedOne(done: seq<Event>, inner: seq<Event>, i: nat, next: nat)
    requires i < |inner|
    ensures var name := if Declared(inner[i]) == "" then Anonymous else Synth(next);
            Copied(done, inner[i..], next) ==
            Copied(done + [Renamed(inner[i], name)], inner[i + 1..], if name == Anonymous then next else next + 1)
  {
    var name := if Declared(inner[i]) == "" then Anonymous else Synth(next);
    var rest := Copy(inner[i + 1..], if name == Anonymous then next else next + 1);
    assert inner[i..][0] == inner[i] && inner[i..][1..] == inner[i + 1..];
    assert done + ([Renamed(inner[i], name)] + rest.0) == (done + [Renamed(inner[i], name)]) + rest.0;
  }

  lemma NamedCopy(e: Event, name: Name)
    ensures EventName(Renamed(e, name)) == name
  {
  }

  /** Flattens a whole term from scratch. */
  method FlattenTerm(counts: map<nat, nat>, ts: Term, next: nat) returns (r: Option<Flat>)
    ensures r == FlatTerm(counts, ts, false, next)
  {
    hide FlatTerm;
    var f := new Flattener(counts, next);
    var ok := f.Flatten(ts, false);
    FromNothing(FlatTerm(counts, ts, false, next), next);
    r := if ok then Some(Flat(f.events, f.nodeLists, f.edgeLists, f.next)) else None;
  }

  lemma FromNothing(r: Option<Flat>, next: nat)
    ensures After(Flat([], [], [], next), r) == r
  {
    if r.Some? {
      assert [] + r.value.events == r.value.events;
      assert [] + r.value.nodeLists == r.value.nodeLists && [] + r.value.edgeLists == r.value.edgeLists;
    }
  }

  lemma NamesGrow(inner: seq<Event>, before: seq<Event>, last: seq<Event>, k: nat, names: seq<seq<Name>>, more: seq<Name>)
    requires |before| == k * |inner| && |last| == |inner| == |more| == |names|
    requires forall x :: 0 <= x < |inner| ==> names[x] == NamesOf(before, |inner|, k, x) && more[x] == EventName(last[x])
    ensures |before + last| == (k + 1) * |inner|
    ensures forall x :: 0 <= x < |inner| ==> names[x] + [more[x]] == NamesOf(before + last, |inner|, k + 1, x)
  {
    var all := before + last;
    forall x | 0 <= x < |inner|
      ensures names[x] + [more[x]] == NamesOf(all, |inner|, k + 1, x)
    {
      forall r | 0 <= r < k
        ensures NamesOf(all, |inner|, k + 1, x)[r] == names[x][r]
      {
        Times2(r, k, |inner|, x);
        assert all[r * |inner| + x] == before[r * |inner| + x];
      }
      assert all[k * |inner| + x] == last[x];
    }
  }

  /** Counts the edges of an interior and looks for declared, labelled or constrained nodes. */
  method CountInterior(inner: seq<Event>) returns (innerEdges: nat, nodeFillers: bool)
    ensures innerEdges == NumEdges(inner) && (nodeFillers <==> AnyFiller(inner))
  {
    innerEdges, nodeFillers := 0, false;
    for i := 0 to |inner|
      invariant innerEdges + NumEdges(inner[i..]) == NumEdges(inner)
      invariant nodeFillers <==> AnyFiller(inner[..i])
    {
      assert inner[i..][1..] == inner[i + 1..];
      assert inner[..i + 1] == inner[..i] + [inner[i]];
      AnyFillerConcat(inner[..i], [inner[i]]);
      OneFiller(inner[i]);
      if inner[i].EdgeEv? {
        innerEdges := innerEdges + 1;
      } else if inner[i].declared != "" || inner[i].filler.labels != "" || inner[i].filler.props != "" {
        nodeFillers := true;
      }
    }
    assert inner[|inner|..] == [] && inner[..|inner|] == inner;
  }

  lemma OneFiller(e: Event)
    ensures AnyFiller([e]) <==> e.NodeEv? && (e.declared != "" || e.filler.labels != "" || e.filler.props != "")
  {
    assert [e][0] == e;
  }

  method Bindings(inner: seq<Event>, names: seq<seq<Name>>, nodes: bool, ghost events: seq<Event>, ghost k: nat) returns (bs: seq<Binding>)
    requires |events| == k * |inner| && |names| == |inner|
    requires forall x :: 0 <= x < |inner| ==> names[x] == NamesOf(events, |inner|, k, x)
    ensures bs == Lists(inner, events, k, 0, nodes)
  {
    bs := [];
    for x := 0 to |inner|
      invariant bs + Lists(inner, events, k, x, nodes) == Lists(inner, events, k, 0, nodes)
    {
      if Declared(inner[x]) != "" && inner[x].NodeEv? == nodes {
        bs := bs + [Binding(Declared(inner[x]), names[x])];
      }
    }
  }
}
