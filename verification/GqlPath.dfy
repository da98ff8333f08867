/** Translating a GQL path term with quantified parts into a fixed Cypher chain (gql/src/gql_transformer.cpp):
    flattening with repetition and fresh names, merging juxtaposed nodes, emitting the chain. Texts of labels,
    properties, conditions and edge patterns are opaque. */
module GqlPath {
  import opened Basics

  // ------------------------------------------------------------------ patterns

  /** Label expression, property specification and inline condition of a node pattern; "" is absent. */
  datatype Filler = Filler(labels: string, props: string, cond: string)

  /** Declared variable ("" if none) and the rest of an edge pattern: direction, labels, properties. */
  datatype Edge = Edge(declared: string, spec: string)

  datatype Quant = Once | Questioned | Star | Plus | Fixed(n: nat) | General(lo: nat, hi: Option<nat>)

  datatype Factor =
    | NodeF(declared: string, filler: Filler, quant: Quant)
    | EdgeF(edge: Edge, quant: Quant)
    | ParenF(id: nat, term: seq<Factor>, quant: Quant)
    | OtherF

  type Term = seq<Factor>

  /** How often a quantifier allows its pattern. */
  predicate InRange(q: Quant, k: nat) {
    match q
    case Once => k == 1
    case Questioned => k <= 1
    case Star => true
    case Plus => k >= 1
    case Fixed(n) => k == n
    case General(lo, hi) => lo <= k && (hi.Some? ==> k <= hi.value)
  }

  // ------------------------------------------------------------------ meaning

  /** A walk, seen through what its nodes and hops satisfy: node p stands before hop p. */
  datatype Walk = Walk(labels: (string, nat) -> bool, props: (string, nat) -> bool, cond: (string, nat) -> bool,
                       edge: (string, nat) -> bool)

  ghost predicate Sat(w: Walk, f: Filler, p: nat) {
    (f.labels == "" || w.labels(f.labels, p)) && (f.props == "" || w.props(f.props, p)) && (f.cond == "" || w.cond(f.cond, p))
  }

  ghost predicate Hops(w: Walk, spec: string, q: Quant, i: nat, j: nat) {
    i <= j && InRange(q, j - i) && forall p: nat :: i <= p < j ==> w.edge(spec, p)
  }

  /** The part of the walk from node i to node j matches the factors one after the other, each starting at
      the node where the one before ended. */
  ghost predicate TermMatch(w: Walk, counts: map<nat, nat>, ts: Term, i: nat, j: nat)
    decreases ts, 0, 0
  {
    if ts == [] then i == j
    else exists m: nat :: FactorMatch(w, counts, ts[0], i, m) && TermMatch(w, counts, ts[1..], m, j)
  }

  ghost predicate FactorMatch(w: Walk, counts: map<nat, nat>, f: Factor, i: nat, j: nat)
    decreases f, 0, 0
  {
    match f
    case NodeF(_, filler, _) => i == j && Sat(w, filler, i)
    case EdgeF(edge, q) => Hops(w, edge.spec, q, i, j)
    case ParenF(id, term, q) => exists k: nat :: Allowed(counts, f, k) && Times(w, counts, term, k, i, j)
    case OtherF => false
  }

  /** k repetitions in a row. */
  ghost predicate Times(w: Walk, counts: map<nat, nat>, ts: Term, k: nat, i: nat, j: nat)
    decreases ts, 1, k
  {
    if k == 0 then i == j
    else exists m: nat :: TermMatch(w, counts, ts, i, m) && Times(w, counts, ts, k - 1, m, j)
  }

  /** The statement driver fixes one count per varying factor; without it the quantifier decides. */
  ghost predicate Allowed(counts: map<nat, nat>, f: Factor, k: nat)
    requires f.ParenF?
  {
    if Varies(f) && f.id in counts then k == counts[f.id] else InRange(f.quant, k)
  }

  // ------------------------------------------------------------------ which factors expand

  function EdgeCount(ts: Term): nat
    decreases ts, 0
  {
    if ts == [] then 0 else FactorEdges(ts[0]) + EdgeCount(ts[1..])
  }

  function FactorEdges(f: Factor): nat
    decreases f, 0
  {
    match f
    case EdgeF(_, _) => 1
    case ParenF(_, term, _) => EdgeCount(term)
    case _ => 0
  }

  predicate HasFillers(ts: Term)
    decreases ts, 0
  {
    ts != [] && (FactorFillers(ts[0]) || HasFillers(ts[1..]))
  }

  predicate FactorFillers(f: Factor)
    decreases f, 0
  {
    match f
    case NodeF(declared, filler, _) => declared != "" || filler.labels != "" || filler.props != ""
    case ParenF(_, term, _) => HasFillers(term)
    case _ => false
  }

  /** A quantified interior that is repeated, rather than turned into a variable-length edge. */
  predicate Expands(f: Factor)
    requires f.ParenF?
  {
    f.quant != Once && EdgeCount(f.term) > 0 && (EdgeCount(f.term) > 1 || HasFillers(f.term))
  }

  predicate Varies(f: Factor)
    requires f.ParenF?
  {
    Expands(f) && f.quant.General? && f.quant.hi.Some? && f.quant.lo < f.quant.hi.value
  }

  /** The number of repetitions of an expanded interior; None is a refusal. */
  function Repeats(counts: map<nat, nat>, f: Factor): (r: Option<nat>)
    requires f.ParenF?
    ensures r.Some? && Expands(f) ==> r.value >= 1 && forall k: nat :: Allowed(counts, f, k) <==> k == r.value
  {
    match f.quant
    case Fixed(n) => if 1 <= n <= 1000 then Some(n) else None
    case General(lo, Some(hi)) =>
      if hi < lo || lo == 0 || hi - lo > 4 || lo > 1000 then None
      else if lo == hi then Some(lo)
      else if f.id in counts && counts[f.id] >= 1 then Some(counts[f.id]) else None
    case _ => None
  }

  // ------------------------------------------------------------------ flattening

  /** Names in the emitted pattern: none, the user's, or generated from a running number. */
  datatype Name = Anonymous | User(text: string) | Synth(id: nat)

  datatype Event =
    | NodeEv(name: Name, declared: string, filler: Filler, interior: bool)
    | EdgeEv(edge: Edge, quant: Quant, rename: Name)

  /** A user variable bound to the list of these elements. */
  datatype Binding = Binding(variable: string, names: seq<Name>)

  datatype Flat = Flat(events: seq<Event>, nodeLists: seq<Binding>, edgeLists: seq<Binding>, next: nat)

  function NameOf(declared: string): Name {
    if declared == "" then Anonymous else User(declared)
  }

  /** Flattens a term; next is the running number of generated names. */
  function FlatTerm(counts: map<nat, nat>, ts: Term, outer: bool, next: nat): (r: Option<Flat>)
    decreases ts, 0
  {
    if ts == [] then Some(Flat([], [], [], next))
    else
      var a := FlatFactor(counts, ts[0], outer, next);
      if a.None? then None
      else
        var b := FlatTerm(counts, ts[1..], outer, a.value.next);
        if b.None? then None
        else Some(Flat(a.value.events + b.value.events, a.value.nodeLists + b.value.nodeLists,
                       a.value.edgeLists + b.value.edgeLists, b.value.next))
  }

  function FlatFactor(counts: map<nat, nat>, f: Factor, outer: bool, next: nat): (r: Option<Flat>)
    decreases f, 0
  {
    match f
    case NodeF(declared, filler, q) =>
      if q != Once || (outer && filler.cond != "") then None else Some(Flat([NodeEv(NameOf(declared), declared, filler, outer)], [], [], next))
    case EdgeF(edge, q) =>
      if q == Once then Some(Flat([EdgeEv(edge, q, Anonymous)], [], [], next))
      else if outer then None
      else Some(Slot(edge, q, next))
    case ParenF(id, term, q) =>
      if q != Once && outer then None
      else
        var inner := FlatTerm(counts, term, q != Once || outer, next);
        if inner.None? || q == Once then inner
        else if Expands(f) then
          var k := Repeats(counts, f);
          if k.None? then None else Some(Repeated(inner.value.events, k.value, inner.value.next))
        else if EdgeCount(term) == 1 then
          var e := Slot(TheEdge(inner.value.events), q, inner.value.next);
          var bare := NodeEv(Anonymous, "", Filler("", "", ""), true);
          Some(e.(events := [bare] + e.events + [bare]))
        else None
    case OtherF => None
  }

  /** A variable-length slot; a declared variable is bound to the list of its edges through a generated name. */
  function Slot(edge: Edge, q: Quant, next: nat): Flat {
    if edge.declared == "" then Flat([EdgeEv(edge, q, Anonymous)], [], [], next)
    else Flat([EdgeEv(edge, q, Synth(next))], [], [Binding(edge.declared, [Synth(next)])], next + 1)
  }

  function TheEdge(es: seq<Event>): Edge {
    if es == [] then Edge("", "") else if es[0].EdgeEv? then es[0].edge else TheEdge(es[1..])
  }

  /** The interior's variable of an event. */
  function Declared(e: Event): string {
    match e case NodeEv(_, declared, _, _) => declared case EdgeEv(edge, _, _) => edge.declared
  }

  function Renamed(e: Event, name: Name): Event {
    match e
    case NodeEv(_, _, _, _) => e.(name := name, interior := true)
    case EdgeEv(_, _, _) => e.(rename := name)
  }

  /** One repetition: every declared element gets a fresh name. */
  function Copy(inner: seq<Event>, next: nat): (r: (seq<Event>, nat))
    ensures |r.0| == |inner|
    decreases inner
  {
    if inner == [] then ([], next)
    else if Declared(inner[0]) == "" then
      var rest := Copy(inner[1..], next);
      ([Renamed(inner[0], Anonymous)] + rest.0, rest.1)
    else
      var rest := Copy(inner[1..], next + 1);
      ([Renamed(inner[0], Synth(next))] + rest.0, rest.1)
  }

  function Copies(inner: seq<Event>, k: nat, next: nat): (r: (seq<Event>, nat))
    ensures |r.0| == k * |inner|
  {
    if k == 0 then ([], next)
    else
      var before := Copies(inner, k - 1, next);
      var last := Copy(inner, before.1);
      (before.0 + last.0, last.1)
  }

  function EventName(e: Event): Name {
    match e case NodeEv(name, _, _, _) => name case EdgeEv(_, _, rename) => rename
  }

  /** The names one interior element received in each repetition. */
  function NamesOf(events: seq<Event>, size: nat, k: nat, x: nat): (r: seq<Name>)
    requires |events| == k * size && x < size
    ensures |r| == k
  {
    seq(k, i requires 0 <= i < k => Times2(i, k, size, x); EventName(events[i * size + x]))
  }

  lemma Times2(i: nat, k: nat, size: nat, x: nat)
    requires i < k && x < size
    ensures i * size + x < k * size
  {
    assert (i + 1) * size <= k * size;
  }

  function Lists(inner: seq<Event>, events: seq<Event>, k: nat, x: nat, nodes: bool): seq<Binding>
    requires |events| == k * |inner| && x <= |inner|
    decreases |inner| - x
  {
    if x == |inner| then []
    else
      (if Declared(inner[x]) != "" && inner[x].NodeEv? == nodes
       then [Binding(Declared(inner[x]), NamesOf(events, |inner|, k, x))] else []) + Lists(inner, events, k, x + 1, nodes)
  }

  function Repeated(inner: seq<Event>, k: nat, next: nat): Flat {
    var r := Copies(inner, k, next);
    Flat(r.0, Lists(inner, r.0, k, 0, true), Lists(inner, r.0, k, 0, false), r.1)
  }

  // ------------------------------------------------------------------ flattening keeps the meaning

  ghost predicate EventMatch(w: Walk, e: Event, i: nat, j: nat) {
    match e
    case NodeEv(_, _, filler, _) => i == j && Sat(w, filler, i)
    case EdgeEv(edge, q, _) => Hops(w, edge.spec, q, i, j)
  }

  ghost predicate EventsMatch(w: Walk, es: seq<Event>, i: nat, j: nat) {
    if es == [] then i == j
    else exists m: nat :: EventMatch(w, es[0], i, m) && EventsMatch(w, es[1..], m, j)
  }

  lemma {:induction false} EventsJoin(w: Walk, a: seq<Event>, b: seq<Event>, i: nat, n: nat, j: nat)
    requires EventsMatch(w, a, i, n) && EventsMatch(w, b, n, j)
    ensures EventsMatch(w, a + b, i, j)
  {
    hide EventMatch;
    if a == [] {
      assert a + b == b;
    } else {
      assert (a + b)[0] == a[0] && (a + b)[1..] == a[1..] + b;
      var m: nat :| EventMatch(w, a[0], i, m) && EventsMatch(w, a[1..], m, n);
      EventsJoin(w, a[1..], b, m, n, j);
    }
  }

  lemma {:induction false} EventsSplit(w: Walk, a: seq<Event>, b: seq<Event>, i: nat, j: nat) returns (n: nat)
    requires EventsMatch(w, a + b, i, j)
    ensures EventsMatch(w, a, i, n) && EventsMatch(w, b, n, j)
  {
    hide EventMatch;
    if a == [] {
      assert a + b == b;
      n := i;
    } else {
      assert (a + b)[0] == a[0] && (a + b)[1..] == a[1..] + b;
      var m: nat :| EventMatch(w, a[0], i, m) && EventsMatch(w, a[1..] + b, m, j);
      n := EventsSplit(w, a[1..], b, m, j);
    }
  }

  lemma OneEvent(w: Walk, e: Event, i: nat, j: nat)
    ensures EventsMatch(w, [e], i, j) <==> EventMatch(w, e, i, j)
  {
    var es := [e];
    assert es[1..] == [];
    if EventMatch(w, e, i, j) {
      assert EventMatch(w, es[0], i, j) && EventsMatch(w, es[1..], j, j);
    }
  }

  /** Fresh names change nothing. */
  lemma {:induction false} CopyMatches(w: Walk, inner: seq<Event>, next: nat, i: nat, j: nat)
    ensures EventsMatch(w, Copy(inner, next).0, i, j) <==> EventsMatch(w, inner, i, j)
    decreases inner
  {
    if inner != [] {
      var next' := if Declared(inner[0]) == "" then next else next + 1;
      var c, rest := Copy(inner, next).0, Copy(inner[1..], next').0;
      assert c[1..] == rest;
      forall m: nat
        ensures EventMatch(w, c[0], i, m) <==> EventMatch(w, inner[0], i, m)
        ensures EventsMatch(w, rest, m, j) <==> EventsMatch(w, inner[1..], m, j)
      {
        CopyMatches(w, inner[1..], next', m, j);
      }
    }
  }

  lemma {:induction false} TimesSnoc(w: Walk, counts: map<nat, nat>, ts: Term, k: nat, i: nat, n: nat, j: nat)
    requires Times(w, counts, ts, k, i, n) && TermMatch(w, counts, ts, n, j)
    ensures Times(w, counts, ts, k + 1, i, j)
    decreases k
  {
    hide TermMatch;
    if k == 0 {
      assert Times(w, counts, ts, 0, j, j);
    } else {
      var m: nat :| TermMatch(w, counts, ts, i, m) && Times(w, counts, ts, k - 1, m, n);
      TimesSnoc(w, counts, ts, k - 1, m, n, j);
    }
  }

  lemma {:induction false} TimesUnsnoc(w: Walk, counts: map<nat, nat>, ts: Term, k: nat, i: nat, j: nat) returns (n: nat)
    requires k > 0 && Times(w, counts, ts, k, i, j)
    ensures Times(w, counts, ts, k - 1, i, n) && TermMatch(w, counts, ts, n, j)
    decreases k
  {
    hide TermMatch;
    var m: nat :| TermMatch(w, counts, ts, i, m) && Times(w, counts, ts, k - 1, m, j);
    if k == 1 {
      n := i;
    } else {
      n := TimesUnsnoc(w, counts, ts, k - 1, m, j);
    }
  }

  lemma {:induction false} CopiesMatch(w: Walk, counts: map<nat, nat>, ts: Term, inner: seq<Event>, k: nat, next: nat, i: nat, j: nat)
    requires forall x: nat, y: nat :: EventsMatch(w, inner, x, y) <==> TermMatch(w, counts, ts, x, y)
    ensures EventsMatch(w, Copies(inner, k, next).0, i, j) <==> Times(w, counts, ts, k, i, j)
    decreases k
  {
    if k > 0 {
      var before := Copies(inner, k - 1, next);
      var last := Copy(inner, before.1);
      hide EventsMatch, TermMatch, Times, Copies, Copy;
      if EventsMatch(w, before.0 + last.0, i, j) {
        var n := EventsSplit(w, before.0, last.0, i, j);
        CopiesMatch(w, counts, ts, inner, k - 1, next, i, n);
        CopyMatches(w, inner, before.1, n, j);
        TimesSnoc(w, counts, ts, k - 1, i, n, j);
      }
      if Times(w, counts, ts, k, i, j) {
        var n := TimesUnsnoc(w, counts, ts, k, i, j);
        CopiesMatch(w, counts, ts, inner, k - 1, next, i, n);
        CopyMatches(w, inner, before.1, n, j);
        EventsJoin(w, before.0, last.0, i, n, j);
      }
    }
  }

  /** A flattened interior has the edges and fillers of its term. */
  ghost predicate Shape(es: seq<Event>, edges: nat, fillers: bool) {
    NumEdges(es) == edges && (AnyFiller(es) <==> fillers)
  }

  function NumEdges(es: seq<Event>): nat {
    if es == [] then 0 else (if es[0].EdgeEv? then 1 else 0) + NumEdges(es[1..])
  }

  ghost predicate AnyFiller(es: seq<Event>) {
    exists x :: 0 <= x < |es| && es[x].NodeEv? && (es[x].declared != "" || es[x].filler.labels != "" || es[x].filler.props != "")
  }

  /** No event is variable-length, and no node has a condition. */
  ghost predicate PlainEvents(es: seq<Event>) {
    forall x :: 0 <= x < |es| ==> if es[x].EdgeEv? then es[x].quant == Once else es[x].filler.cond == ""
  }

  lemma {:induction false} NumEdgesConcat(a: seq<Event>, b: seq<Event>)
    ensures NumEdges(a + b) == NumEdges(a) + NumEdges(b)
  {
    if a == [] {
      assert a + b == b;
    } else {
      assert (a + b)[1..] == a[1..] + b;
      NumEdgesConcat(a[1..], b);
    }
  }

  lemma AnyFillerConcat(a: seq<Event>, b: seq<Event>)
    ensures AnyFiller(a + b) <==> AnyFiller(a) || AnyFiller(b)
  {
    if AnyFiller(b) {
      var x :| 0 <= x < |b| && b[x].NodeEv? && (b[x].declared != "" || b[x].filler.labels != "" || b[x].filler.props != "");
      assert (a + b)[|a| + x] == b[x];
    }
    if AnyFiller(a) {
      var x :| 0 <= x < |a| && a[x].NodeEv? && (a[x].declared != "" || a[x].filler.labels != "" || a[x].filler.props != "");
      assert (a + b)[x] == a[x];
    }
  }

  /** Inside a quantified interior nothing is quantified, so events and term agree in shape. */
  lemma {:induction false} InteriorShape(counts: map<nat, nat>, ts: Term, next: nat)
    requires FlatTerm(counts, ts, true, next).Some?
    ensures var es := FlatTerm(counts, ts, true, next).value.events;
            Shape(es, EdgeCount(ts), HasFillers(ts)) && PlainEvents(es)
    decreases ts, 0
  {
    if ts != [] {
      var a := FlatFactor(counts, ts[0], true, next).value;
      var b := FlatTerm(counts, ts[1..], true, a.next).value;
      InteriorFactor(counts, ts[0], next);
      InteriorShape(counts, ts[1..], a.next);
      NumEdgesConcat(a.events, b.events);
      AnyFillerConcat(a.events, b.events);
    }
  }

  lemma {:induction false} InteriorFactor(counts: map<nat, nat>, f: Factor, next: nat)
    requires FlatFactor(counts, f, true, next).Some?
    ensures var es := FlatFactor(counts, f, true, next).value.events;
            Shape(es, FactorEdges(f), FactorFillers(f)) && PlainEvents(es)
    decreases f, 0
  {
    var es := FlatFactor(counts, f, true, next).value.events;
    match f {
      case NodeF(_, _, _) => assert NumEdges(es[1..]) == 0; assert AnyFiller(es) <==> es[0].declared != "" || es[0].filler.labels != "" || es[0].filler.props != "";
      case EdgeF(_, _) => assert NumEdges(es[1..]) == 0;
      case ParenF(_, term, _) => InteriorShape(counts, term, next);
    }
  }

  // ------------------------------------------------------------------ the flattened events mean the term

  ghost predicate BareMeaning(w: Walk, es: seq<Event>, i: nat, j: nat) {
    if NumEdges(es) == 0 then i == j else Hops(w, TheEdge(es).spec, Once, i, j)
  }

  /** A bare interior of one edge is that edge. */
  lemma {:induction false} BareInterior(w: Walk, es: seq<Event>, i: nat, j: nat)
    requires PlainEvents(es) && !AnyFiller(es) && NumEdges(es) <= 1
    ensures EventsMatch(w, es, i, j) <==> BareMeaning(w, es, i, j)
    decreases es
  {
    if es != [] {
      NotAnyTail(es);
      forall m: nat
        ensures EventsMatch(w, es[1..], m, j) <==> BareMeaning(w, es[1..], m, j)
      {
        BareInterior(w, es[1..], m, j);
      }
      if es[0].NodeEv? {
        BareNode(w, es, i);
        assert EventMatch(w, es[0], i, i);
      } else if Hops(w, es[0].edge.spec, Once, i, j) {
        assert EventMatch(w, es[0], i, j) && EventsMatch(w, es[1..], j, j);
      }
    }
  }

  lemma NotAnyTail(es: seq<Event>)
    requires es != [] && !AnyFiller(es) && PlainEvents(es)
    ensures !AnyFiller(es[1..]) && PlainEvents(es[1..])
  {
    assert forall x :: 0 <= x < |es[1..]| ==> es[1..][x] == es[x + 1];
  }

  lemma BareNode(w: Walk, es: seq<Event>, i: nat)
    requires es != [] && es[0].NodeEv? && !AnyFiller(es) && PlainEvents(es)
    ensures forall m: nat :: EventMatch(w, es[0], i, m) <==> i == m
  {
  }

  /** k repetitions of a single bare edge are a variable-length edge of length k. */
  lemma {:induction false} TimesIsHops(w: Walk, counts: map<nat, nat>, ts: Term, spec: string, k: nat, i: nat, j: nat)
    requires forall x: nat, y: nat :: TermMatch(w, counts, ts, x, y) <==> Hops(w, spec, Once, x, y)
    ensures Times(w, counts, ts, k, i, j) <==> Hops(w, spec, Fixed(k), i, j)
    decreases k
  {
    hide TermMatch;
    if k > 0 {
      if m: nat :| TermMatch(w, counts, ts, i, m) && Times(w, counts, ts, k - 1, m, j) {
        TimesIsHops(w, counts, ts, spec, k - 1, m, j);
        assert m == i + 1 && w.edge(spec, i);
      }
      if Hops(w, spec, Fixed(k), i, j) {
        TimesIsHops(w, counts, ts, spec, k - 1, i + 1, j);
        assert TermMatch(w, counts, ts, i, i + 1);
      }
    }
  }

  lemma CollapseMatches(w: Walk, counts: map<nat, nat>, f: Factor, spec: string, i: nat, j: nat)
    requires f.ParenF? && !Expands(f)
    requires forall x: nat, y: nat :: TermMatch(w, counts, f.term, x, y) <==> Hops(w, spec, Once, x, y)
    ensures FactorMatch(w, counts, f, i, j) <==> Hops(w, spec, f.quant, i, j)
  {
    hide TermMatch, Times, InRange;
    forall k: nat
      ensures Times(w, counts, f.term, k, i, j) <==> Hops(w, spec, Fixed(k), i, j)
    {
      TimesIsHops(w, counts, f.term, spec, k, i, j);
    }
    HopsCount(w, spec, f.quant, i, j);
    if Hops(w, spec, f.quant, i, j) {
      assert Allowed(counts, f, j - i) && Times(w, counts, f.term, j - i, i, j);
    }
  }

  lemma HopsCount(w: Walk, spec: string, q: Quant, i: nat, j: nat)
    ensures Hops(w, spec, q, i, j) <==> i <= j && InRange(q, j - i) && Hops(w, spec, Fixed(j - i), i, j)
    ensures forall k: nat :: Hops(w, spec, Fixed(k), i, j) ==> i <= j && k == j - i
  {
  }

  lemma SlotMatches(w: Walk, edge: Edge, q: Quant, next: nat, bare: Event, i: nat, j: nat)
    requires bare == NodeEv(Anonymous, "", Filler("", "", ""), true)
    ensures EventsMatch(w, Slot(edge, q, next).events, i, j) <==> Hops(w, edge.spec, q, i, j)
    ensures EventsMatch(w, [bare] + Slot(edge, q, next).events + [bare], i, j) <==> Hops(w, edge.spec, q, i, j)
  {
    var es := Slot(edge, q, next).events;
    hide EventsMatch;
    forall x: nat, y: nat
      ensures EventsMatch(w, [bare], x, y) <==> x == y
      ensures EventsMatch(w, es, x, y) <==> Hops(w, edge.spec, q, x, y)
    {
      OneEvent(w, bare, x, y);
      OneEvent(w, es[0], x, y);
      assert es == [es[0]];
    }
    if EventsMatch(w, [bare] + es + [bare], i, j) {
      var n := EventsSplit(w, [bare] + es, [bare], i, j);
      var m := EventsSplit(w, [bare], es, i, n);
    }
    if EventsMatch(w, es, i, j) {
      EventsJoin(w, [bare], es, i, i, j);
      EventsJoin(w, [bare] + es, [bare], i, j, j);
    }
  }

  lemma TermFirst(w: Walk, counts: map<nat, nat>, ts: Term, i: nat, j: nat) returns (m: nat)
    requires ts != [] && TermMatch(w, counts, ts, i, j)
    ensures FactorMatch(w, counts, ts[0], i, m) && TermMatch(w, counts, ts[1..], m, j)
  {
    m :| FactorMatch(w, counts, ts[0], i, m) && TermMatch(w, counts, ts[1..], m, j);
  }

  /** Flattening keeps the meaning of a term. */
  lemma {:induction false} FlatTermMatches(w: Walk, counts: map<nat, nat>, ts: Term, outer: bool, next: nat, i: nat, j: nat)
    requires FlatTerm(counts, ts, outer, next).Some?
    ensures EventsMatch(w, FlatTerm(counts, ts, outer, next).value.events, i, j) <==> TermMatch(w, counts, ts, i, j)
    decreases ts, 0
  {
    if ts != [] {
      var a := FlatFactor(counts, ts[0], outer, next).value;
      var b := FlatTerm(counts, ts[1..], outer, a.next).value;
      hide EventsMatch, FactorMatch, FlatFactor;
      if EventsMatch(w, a.events + b.events, i, j) {
        var m := EventsSplit(w, a.events, b.events, i, j);
        FlatFactorMatches(w, counts, ts[0], outer, next, i, m);
        FlatTermMatches(w, counts, ts[1..], outer, a.next, m, j);
      }
      if TermMatch(w, counts, ts, i, j) {
        var m := TermFirst(w, counts, ts, i, j);
        FlatFactorMatches(w, counts, ts[0], outer, next, i, m);
        FlatTermMatches(w, counts, ts[1..], outer, a.next, m, j);
        EventsJoin(w, a.events, b.events, i, m, j);
      }
    }
  }

  lemma {:induction false} FlatFactorMatches(w: Walk, counts: map<nat, nat>, f: Factor, outer: bool, next: nat, i: nat, j: nat)
    requires FlatFactor(counts, f, outer, next).Some?
    ensures EventsMatch(w, FlatFactor(counts, f, outer, next).value.events, i, j) <==> FactorMatch(w, counts, f, i, j)
    decreases f, 0
  {
    hide EventsMatch;
    match f {
      case NodeF(declared, filler, _) =>
        OneEvent(w, NodeEv(NameOf(declared), declared, filler, outer), i, j);
      case EdgeF(edge, q) =>
        OneEvent(w, EdgeEv(edge, q, Anonymous), i, j);
        SlotMatches(w, edge, q, next, NodeEv(Anonymous, "", Filler("", "", ""), true), i, j);
      case ParenF(id, term, q) =>
        FlatParenMatches(w, counts, f, outer, next, i, j);
    }
  }

  lemma {:induction false} FlatParenMatches(w: Walk, counts: map<nat, nat>, f: Factor, outer: bool, next: nat, i: nat, j: nat)
    requires f.ParenF? && FlatFactor(counts, f, outer, next).Some?
    ensures EventsMatch(w, FlatFactor(counts, f, outer, next).value.events, i, j) <==> FactorMatch(w, counts, f, i, j)
    decreases f.term, 1
  {
    var inner := FlatTerm(counts, f.term, f.quant != Once || outer, next).value;
    hide EventsMatch, FlatTerm, TermMatch, Times, Copies, Repeats, EdgeCount, HasFillers;
    forall x: nat, y: nat
      ensures EventsMatch(w, inner.events, x, y) <==> TermMatch(w, counts, f.term, x, y)
    {
      FlatTermMatches(w, counts, f.term, f.quant != Once || outer, next, x, y);
    }
    if f.quant == Once {
      OnceMatches(w, counts, f, i, j);
    } else if Expands(f) {
      var k := Repeats(counts, f).value;
      CopiesMatch(w, counts, f.term, inner.events, k, inner.next, i, j);
    } else {
      InteriorShape(counts, f.term, next);
      var e := TheEdge(inner.events);
      forall x: nat, y: nat
        ensures TermMatch(w, counts, f.term, x, y) <==> Hops(w, e.spec, Once, x, y)
      {
        BareInterior(w, inner.events, x, y);
      }
      CollapseMatches(w, counts, f, e.spec, i, j);
      SlotMatches(w, e, f.quant, inner.next, NodeEv(Anonymous, "", Filler("", "", ""), true), i, j);
    }
  }

  lemma OnceMatches(w: Walk, counts: map<nat, nat>, f: Factor, i: nat, j: nat)
    requires f.ParenF? && f.quant == Once
    ensures FactorMatch(w, counts, f, i, j) <==> TermMatch(w, counts, f.term, i, j)
  {
    hide TermMatch;
    if FactorMatch(w, counts, f, i, j) {
      var k: nat :| Allowed(counts, f, k) && Times(w, counts, f.term, k, i, j);
      var n := TimesUnsnoc(w, counts, f.term, k, i, j);
    }
    if TermMatch(w, counts, f.term, i, j) {
      assert Times(w, counts, f.term, 0, j, j);
      assert Allowed(counts, f, 1) && Times(w, counts, f.term, 1, i, j);
    }
  }
}
