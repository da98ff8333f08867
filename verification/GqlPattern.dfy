/** The unrolled pattern of a path term, read off the term alone: its node patterns and edges in order, the
    elements its interior variables collect, and what it means to place it on a walk. */
module GqlPattern {
  import opened Basics
  import opened GqlPath

  // ------------------------------------------------------------------ the unrolled pattern

  datatype Item = Spot(declared: string, filler: Filler) | Hop(edge: Edge, quant: Quant)

  const EMPTY: Filler := Filler("", "", "")

  function Variable(it: Item): string {
    match it case Spot(declared, _) => declared case Hop(edge, _) => edge.declared
  }

  function Tile(s: seq<Item>, k: nat): (r: seq<Item>)
    ensures |r| == k * |s|
  {
    if k == 0 then [] else Tile(s, k - 1) + s
  }

  function TheHop(s: seq<Item>): Edge {
    if s == [] then Edge("", "") else if s[0].Hop? then s[0].edge else TheHop(s[1..])
  }

  function Count(counts: map<nat, nat>, f: Factor): nat
    requires f.ParenF?
  {
    var k := Repeats(counts, f);
    if k.Some? then k.value else 0
  }

  function Items(counts: map<nat, nat>, ts: Term): seq<Item>
    decreases ts, 0
  {
    if ts == [] then [] else FactorItems(counts, ts[0]) + Items(counts, ts[1..])
  }

  /** An expanded interior stands there once per repetition; a bare one-edge interior is that edge between
      two empty node patterns. */
  function FactorItems(counts: map<nat, nat>, f: Factor): seq<Item>
    decreases f, 0
  {
    match f
    case NodeF(declared, filler, _) => [Spot(declared, filler)]
    case EdgeF(edge, q) => [Hop(edge, q)]
    case ParenF(_, term, q) =>
      if q == Once then Items(counts, term)
      else if Expands(f) then Tile(Items(counts, term), Count(counts, f))
      else [Spot("", EMPTY), Hop(TheHop(Items(counts, term)), q), Spot("", EMPTY)]
    case OtherF => []
  }

  // ------------------------------------------------------------------ the flattened events are the pattern

  function Bone(e: Event): Item {
    match e case NodeEv(_, declared, filler, _) => Spot(declared, filler) case EdgeEv(edge, q, _) => Hop(edge, q)
  }

  /** Events without their names. */
  function Bones(es: seq<Event>): (r: seq<Item>)
    ensures |r| == |es|
  {
    seq(|es|, x requires 0 <= x < |es| => Bone(es[x]))
  }

  lemma BonesConcat(a: seq<Event>, b: seq<Event>)
    ensures Bones(a + b) == Bones(a) + Bones(b)
  {
  }

  lemma BoneAt(es: seq<Event>, x: nat)
    requires x < |es|
    ensures Bones(es)[x] == Bone(es[x]) && (Bones(es)[x].Spot? <==> es[x].NodeEv?)
  {
  }

  lemma BonesCons(es: seq<Event>)
    requires es != []
    ensures Bones(es) == [Bone(es[0])] + Bones(es[1..])
  {
  }

  lemma {:induction false} CopyBones(inner: seq<Event>, next: nat)
    ensures Bones(Copy(inner, next).0) == Bones(inner)
    decreases inner
  {
    hide Bones;
    if inner == [] {
      NoBones();
    } else {
      var next' := if Declared(inner[0]) == "" then next else next + 1;
      CopyBones(inner[1..], next');
      var c := Copy(inner, next).0;
      assert c[1..] == Copy(inner[1..], next').0;
      BonesCons(c);
      BonesCons(inner);
    }
  }

  lemma {:induction false} CopiesBones(inner: seq<Event>, k: nat, next: nat)
    ensures Bones(Copies(inner, k, next).0) == Tile(Bones(inner), k)
    decreases k
  {
    hide Copy, Bones;
    if k == 0 {
      NoBones();
    } else {
      var before := Copies(inner, k - 1, next);
      CopiesBones(inner, k - 1, next);
      CopyBones(inner, before.1);
      BonesConcat(before.0, Copy(inner, before.1).0);
    }
  }

  lemma NoBones()
    ensures Bones([]) == []
  {
  }

  lemma {:induction false} TheEdgeBones(es: seq<Event>)
    ensures TheHop(Bones(es)) == TheEdge(es)
  {
    if es != [] {
      TheEdgeBones(es[1..]);
      assert Bones(es)[1..] == Bones(es[1..]);
    }
  }

  /** The flattened events are the unrolled pattern under names. */
  lemma {:induction false} FlatBones(counts: map<nat, nat>, ts: Term, outer: bool, next: nat)
    requires FlatTerm(counts, ts, outer, next).Some?
    ensures Bones(FlatTerm(counts, ts, outer, next).value.events) == Items(counts, ts)
    decreases ts, 0
  {
    hide FlatFactor, FactorItems, Bones;
    if ts == [] {
      NoBones();
    } else {
      var a := FlatFactor(counts, ts[0], outer, next).value;
      var b := FlatTerm(counts, ts[1..], outer, a.next).value;
      FlatFactorBones(counts, ts[0], outer, next);
      FlatBones(counts, ts[1..], outer, a.next);
      BonesConcat(a.events, b.events);
    }
  }

  lemma {:induction false} FlatFactorBones(counts: map<nat, nat>, f: Factor, outer: bool, next: nat)
    requires FlatFactor(counts, f, outer, next).Some?
    ensures Bones(FlatFactor(counts, f, outer, next).value.events) == FactorItems(counts, f)
    decreases f, 0
  {
    hide Repeats, Copies, Tile, EdgeCount, HasFillers, TheHop, TheEdge, Items, FlatTerm, Bones, Slot;
    match f {
      case NodeF(declared, filler, _) =>
        OneBone(NodeEv(NameOf(declared), declared, filler, outer));
      case EdgeF(edge, q) =>
        OneBone(EdgeEv(edge, q, Anonymous));
        SlotBones(edge, q, next);
      case ParenF(_, term, q) =>
        FlatBones(counts, term, q != Once || outer, next);
        var inner := FlatTerm(counts, term, q != Once || outer, next).value;
        if q != Once && Expands(f) {
          CopiesBones(inner.events, Repeats(counts, f).value, inner.next);
        } else if q != Once {
          TheEdgeBones(inner.events);
          SlotBones(TheEdge(inner.events), q, inner.next);
        }
    }
  }

  lemma OneBone(e: Event)
    ensures Bones([e]) == [Bone(e)]
  {
  }

  /** A variable-length slot, alone and as a collapsed interior. */
  lemma SlotBones(edge: Edge, q: Quant, next: nat)
    ensures var es, bare := Slot(edge, q, next).events, NodeEv(Anonymous, "", EMPTY, true);
            Bones(es) == [Hop(edge, q)] && Bones([bare] + es + [bare]) == [Spot("", EMPTY), Hop(edge, q), Spot("", EMPTY)]
  {
  }

  // ------------------------------------------------------------------ places between the hops

  /** The hops in order. */
  function HopsOf(items: seq<Item>): (r: seq<Item>)
    ensures forall n :: 0 <= n < |r| ==> r[n].Hop?
  {
    if items == [] then []
    else
      var last := items[|items| - 1];
      HopsOf(items[..|items| - 1]) + (if last.Hop? then [last] else [])
  }

  /** The number of hops before an element. */
  function Rank(items: seq<Item>, x: nat): nat
    requires x <= |items|
  {
    |HopsOf(items[..x])|
  }

  lemma {:induction false} HopsCounted(es: seq<Event>)
    ensures |HopsOf(Bones(es))| == NumEdges(es)
    decreases |es|
  {
    if es != [] {
      var init, e := es[..|es| - 1], es[|es| - 1];
      HopsCounted(init);
      assert Bones(es)[..|es| - 1] == Bones(init) && es == init + [e];
      NumEdgesConcat(init, [e]);
      assert [e][1..] == [];
    }
  }

  lemma RankCounts(es: seq<Event>, x: nat)
    requires x <= |es|
    ensures Rank(Bones(es), x) == NumEdges(es[..x])
  {
    HopsCounted(es[..x]);
    assert Bones(es)[..x] == Bones(es[..x]);
  }

  // ------------------------------------------------------------------ which elements a variable collects

  /** An interior variable and the places of its elements in the unrolled pattern, one per repetition. */
  datatype Place = Place(variable: string, at: seq<nat>)

  function Shifted(ps: seq<Place>, d: nat): (r: seq<Place>)
    ensures |r| == |ps|
  {
    seq(|ps|, b requires 0 <= b < |ps| => Place(ps[b].variable, seq(|ps[b].at|, r requires 0 <= r < |ps[b].at| => ps[b].at[r] + d)))
  }

  function Column(size: nat, k: nat, x: nat): (r: seq<nat>)
    ensures |r| == k
  {
    seq(k, r requires 0 <= r < k => r * size + x)
  }

  /** In k repetitions, element x of the interior stands at x, x + size, x + 2 size and so on. */
  function Columns(inner: seq<Item>, k: nat, x: nat, nodes: bool): seq<Place>
    requires x <= |inner|
    decreases |inner| - x
  {
    if x == |inner| then []
    else
      (if Variable(inner[x]) != "" && inner[x].Spot? == nodes then [Place(Variable(inner[x]), Column(|inner|, k, x))] else [])
      + Columns(inner, k, x + 1, nodes)
  }

  function Places(counts: map<nat, nat>, ts: Term, nodes: bool): seq<Place>
    decreases ts, 0
  {
    if ts == [] then []
    else FactorPlaces(counts, ts[0], nodes) + Shifted(Places(counts, ts[1..], nodes), |FactorItems(counts, ts[0])|)
  }

  /** Variables of quantified edges and of quantified interiors collect. */
  function FactorPlaces(counts: map<nat, nat>, f: Factor, nodes: bool): seq<Place>
    decreases f, 0
  {
    match f
    case EdgeF(edge, q) => if !nodes && q != Once && edge.declared != "" then [Place(edge.declared, [0])] else []
    case ParenF(_, term, q) =>
      if q == Once then Places(counts, term, nodes)
      else if Expands(f) then Columns(Items(counts, term), Count(counts, f), 0, nodes)
      else
        var v := TheHop(Items(counts, term)).declared;
        if !nodes && v != "" then [Place(v, [1])] else []
    case _ => []
  }

  /** The place is about elements of this kind that carry the variable, from left to right. */
  ghost predicate Points(items: seq<Item>, p: Place, nodes: bool) {
    && p.variable != ""
    && (forall r :: 0 <= r < |p.at| ==> p.at[r] < |items| && Variable(items[p.at[r]]) == p.variable && items[p.at[r]].Spot? == nodes)
    && (forall r, s :: 0 <= r < s < |p.at| ==> p.at[r] < p.at[s])
  }

  ghost predicate AllPoint(items: seq<Item>, ps: seq<Place>, nodes: bool) {
    forall b :: 0 <= b < |ps| ==> Points(items, ps[b], nodes)
  }

  lemma PointsLeft(a: seq<Item>, b: seq<Item>, ps: seq<Place>, qs: seq<Place>, nodes: bool)
    requires AllPoint(a, ps, nodes) && AllPoint(b, qs, nodes)
    ensures AllPoint(a + b, ps + Shifted(qs, |a|), nodes)
  {
    var all := ps + Shifted(qs, |a|);
    forall x | 0 <= x < |all|
      ensures Points(a + b, all[x], nodes)
    {
      if x < |ps| {
        assert Points(a, ps[x], nodes);
      } else {
        assert Points(b, qs[x - |ps|], nodes);
      }
    }
  }

  lemma {:induction false} TileAt(s: seq<Item>, k: nat, r: nat, x: nat)
    requires r < k && x < |s|
    ensures r * |s| + x < k * |s| && Tile(s, k)[r * |s| + x] == s[x]
    decreases k
  {
    Times2(r, k, |s|, x);
    if r < k - 1 {
      TileAt(s, k - 1, r, x);
    }
  }

  lemma ColumnPoints(inner: seq<Item>, k: nat, x: nat)
    requires x < |inner| && Variable(inner[x]) != ""
    ensures Points(Tile(inner, k), Place(Variable(inner[x]), Column(|inner|, k, x)), inner[x].Spot?)
  {
    hide Tile;
    var at := Column(|inner|, k, x);
    forall r | 0 <= r < k
      ensures at[r] < k * |inner| && Tile(inner, k)[at[r]] == inner[x]
    {
      TileAt(inner, k, r, x);
    }
    forall r, s | 0 <= r < s < k
      ensures at[r] < at[s]
    {
      Times2(r, s, |inner|, x);
      assert at[s] == s * |inner| + x;
    }
  }

  lemma {:induction false} ColumnsPoint(inner: seq<Item>, k: nat, x: nat, nodes: bool)
    requires x <= |inner|
    ensures AllPoint(Tile(inner, k), Columns(inner, k, x, nodes), nodes)
    decreases |inner| - x
  {
    hide Tile, Points, Column;
    if x < |inner| {
      ColumnsPoint(inner, k, x + 1, nodes);
      if Variable(inner[x]) != "" {
        ColumnPoints(inner, k, x);
      }
    }
  }

  /** What a variable collects are elements that carry it. */
  lemma {:induction false} PlacesPoint(counts: map<nat, nat>, ts: Term, nodes: bool)
    ensures AllPoint(Items(counts, ts), Places(counts, ts, nodes), nodes)
    decreases ts, 0
  {
    hide FactorItems, FactorPlaces, Points, Shifted;
    if ts != [] {
      FactorPlacesPoint(counts, ts[0], nodes);
      PlacesPoint(counts, ts[1..], nodes);
      PointsLeft(FactorItems(counts, ts[0]), Items(counts, ts[1..]), FactorPlaces(counts, ts[0], nodes), Places(counts, ts[1..], nodes), nodes);
    }
  }

  lemma {:induction false} FactorPlacesPoint(counts: map<nat, nat>, f: Factor, nodes: bool)
    ensures AllPoint(FactorItems(counts, f), FactorPlaces(counts, f, nodes), nodes)
    decreases f, 0
  {
    hide Repeats, Tile, EdgeCount, HasFillers, Columns;
    if f.ParenF? {
      PlacesPoint(counts, f.term, nodes);
      ColumnsPoint(Items(counts, f.term), Count(counts, f), 0, nodes);
    }
  }

  // ------------------------------------------------------------------ the lists hold the names of those elements

  function NameAt(es: seq<Event>, x: nat): Name {
    if x < |es| then EventName(es[x]) else Anonymous
  }

  /** The list of a place. */
  function ListAt(es: seq<Event>, p: Place): Binding {
    Binding(p.variable, seq(|p.at|, r requires 0 <= r < |p.at| => NameAt(es, p.at[r])))
  }

  function ListsAt(es: seq<Event>, ps: seq<Place>): (r: seq<Binding>)
    ensures |r| == |ps|
  {
    seq(|ps|, b requires 0 <= b < |ps| => ListAt(es, ps[b]))
  }

  lemma ListAtLeft(a: seq<Event>, b: seq<Event>, p: Place, nodes: bool)
    requires Points(Bones(a), p, nodes)
    ensures ListAt(a + b, p) == ListAt(a, p)
  {
  }

  lemma ListAtRight(a: seq<Event>, b: seq<Event>, ps: seq<Place>, x: nat)
    requires x < |ps|
    ensures ListAt(a + b, Shifted(ps, |a|)[x]) == ListAt(b, ps[x])
  {
  }

  lemma ListsConcat(a: seq<Event>, b: seq<Event>, ps: seq<Place>, qs: seq<Place>, nodes: bool)
    requires AllPoint(Bones(a), ps, nodes)
    ensures ListsAt(a + b, ps + Shifted(qs, |a|)) == ListsAt(a, ps) + ListsAt(b, qs)
  {
    hide ListAt, Shifted, Points, Bones;
    var all := ps + Shifted(qs, |a|);
    forall x | 0 <= x < |all|
      ensures ListAt(a + b, all[x]) == if x < |ps| then ListAt(a, ps[x]) else ListAt(b, qs[x - |ps|])
    {
      if x < |ps| {
        ListAtLeft(a, b, ps[x], nodes);
      } else {
        ListAtRight(a, b, qs, x - |ps|);
      }
    }
  }

  lemma ColumnNames(events: seq<Event>, size: nat, k: nat, x: nat, variable: string)
    requires |events| == k * size && x < size
    ensures ListAt(events, Place(variable, Column(size, k, x))) == Binding(variable, NamesOf(events, size, k, x))
  {
    forall r | 0 <= r < k
      ensures NameAt(events, Column(size, k, x)[r]) == NamesOf(events, size, k, x)[r]
    {
      Times2(r, k, size, x);
    }
  }

  lemma {:induction false} ListsAreColumns(inner: seq<Event>, events: seq<Event>, k: nat, x: nat, nodes: bool)
    requires |events| == k * |inner| && x <= |inner|
    ensures Lists(inner, events, k, x, nodes) == ListsAt(events, Columns(Bones(inner), k, x, nodes))
    decreases |inner| - x
  {
    hide ListAt, Column, NamesOf;
    if x < |inner| {
      ListsAreColumns(inner, events, k, x + 1, nodes);
      ColumnNames(events, |inner|, k, x, Declared(inner[x]));
      assert Variable(Bones(inner)[x]) == Declared(inner[x]) && Bones(inner)[x].Spot? == inner[x].NodeEv?;
    }
  }

  /** The lists of the flattening are the names of the elements each variable collects. */
  lemma {:induction false} FlatLists(counts: map<nat, nat>, ts: Term, outer: bool, next: nat, nodes: bool)
    requires FlatTerm(counts, ts, outer, next).Some?
    ensures var r := FlatTerm(counts, ts, outer, next).value;
            (if nodes then r.nodeLists else r.edgeLists) == ListsAt(r.events, Places(counts, ts, nodes))
    decreases ts, 0
  {
    hide FlatFactor, FactorItems, FactorPlaces, Points, Bones, ListAt, Shifted;
    if ts != [] {
      var a := FlatFactor(counts, ts[0], outer, next).value;
      var b := FlatTerm(counts, ts[1..], outer, a.next).value;
      FlatFactorLists(counts, ts[0], outer, next, nodes);
      FlatLists(counts, ts[1..], outer, a.next, nodes);
      FlatFactorBones(counts, ts[0], outer, next);
      FactorPlacesPoint(counts, ts[0], nodes);
      ListsConcat(a.events, b.events, FactorPlaces(counts, ts[0], nodes), Places(counts, ts[1..], nodes), nodes);
    }
  }

  lemma SlotList(edge: Edge, q: Quant, next: nat)
    requires edge.declared != ""
    ensures ListAt(Slot(edge, q, next).events, Place(edge.declared, [0])) == Binding(edge.declared, [Synth(next)])
  {
    var names := ListAt(Slot(edge, q, next).events, Place(edge.declared, [0])).names;
    assert |names| == 1 && names[0] == Synth(next);
  }

  lemma CollapsedList(edge: Edge, q: Quant, next: nat, bare: Event)
    requires edge.declared != ""
    ensures ListAt([bare] + Slot(edge, q, next).events + [bare], Place(edge.declared, [1])) == Binding(edge.declared, [Synth(next)])
  {
    var names := ListAt([bare] + Slot(edge, q, next).events + [bare], Place(edge.declared, [1])).names;
    assert |names| == 1 && names[0] == Synth(next);
  }

  lemma {:induction false} FlatFactorLists(counts: map<nat, nat>, f: Factor, outer: bool, next: nat, nodes: bool)
    requires FlatFactor(counts, f, outer, next).Some?
    ensures var r := FlatFactor(counts, f, outer, next).value;
            (if nodes then r.nodeLists else r.edgeLists) == ListsAt(r.events, FactorPlaces(counts, f, nodes))
    decreases f, 0
  {
    hide Repeats, Copies, Tile, EdgeCount, HasFillers, Columns, Lists, Bones, TheHop, TheEdge, ListAt;
    match f {
      case NodeF(_, _, _) =>
      case EdgeF(edge, q) =>
        if q != Once && edge.declared != "" {
          SlotList(edge, q, next);
        }
      case ParenF(_, term, q) =>
        FlatLists(counts, term, q != Once || outer, next, nodes);
        FlatBones(counts, term, q != Once || outer, next);
        var inner := FlatTerm(counts, term, q != Once || outer, next).value;
        if q != Once && Expands(f) {
          var k := Repeats(counts, f).value;
          ListsAreColumns(inner.events, Copies(inner.events, k, inner.next).0, k, 0, nodes);
        } else if q != Once {
          var edge := TheEdge(inner.events);
          TheEdgeBones(inner.events);
          if edge.declared != "" {
            CollapsedList(edge, q, inner.next, NodeEv(Anonymous, "", EMPTY, true));
          }
        }
    }
  }

  // ------------------------------------------------------------------ listed names are generated

  /** In repetition r, element x of the interior is the same pattern under a name of its own. */
  lemma {:induction false} CopyAt(inner: seq<Event>, next: nat, x: nat)
    requires x < |inner|
    ensures exists name :: Copy(inner, next).0[x] == Renamed(inner[x], name) && (name.Synth? <==> Declared(inner[x]) != "")
    decreases inner
  {
    var next' := if Declared(inner[0]) == "" then next else next + 1;
    if x == 0 {
      var name := if Declared(inner[0]) == "" then Anonymous else Synth(next);
      assert Copy(inner, next).0[0] == Renamed(inner[0], name);
    } else {
      CopyAt(inner[1..], next', x - 1);
      var name :| Copy(inner[1..], next').0[x - 1] == Renamed(inner[1..][x - 1], name) && (name.Synth? <==> Declared(inner[x]) != "");
      assert Copy(inner, next).0[x] == Renamed(inner[x], name);
    }
  }

  lemma {:induction false} CopiesAt(inner: seq<Event>, k: nat, next: nat, r: nat, x: nat)
    requires r < k && x < |inner|
    ensures r * |inner| + x < k * |inner|
    ensures exists name :: Copies(inner, k, next).0[r * |inner| + x] == Renamed(inner[x], name) && (name.Synth? <==> Declared(inner[x]) != "")
    decreases k
  {
    Times2(r, k, |inner|, x);
    var before := Copies(inner, k - 1, next);
    if r < k - 1 {
      CopiesAt(inner, k - 1, next, r, x);
    } else {
      CopyAt(inner, before.1, x);
    }
  }

  ghost predicate AllSynth(bs: seq<Binding>) {
    forall b, r :: 0 <= b < |bs| && 0 <= r < |bs[b].names| ==> bs[b].names[r].Synth?
  }

  lemma {:induction false} ListsSynth(inner: seq<Event>, k: nat, next: nat, x: nat, nodes: bool)
    requires x <= |inner|
    ensures AllSynth(Lists(inner, Copies(inner, k, next).0, k, x, nodes))
    decreases |inner| - x
  {
    hide Copies;
    if x < |inner| {
      ListsSynth(inner, k, next, x + 1, nodes);
      if Declared(inner[x]) != "" {
        NamesSynth(inner, k, next, x);
      }
    }
  }

  lemma NamesSynth(inner: seq<Event>, k: nat, next: nat, x: nat)
    requires x < |inner| && Declared(inner[x]) != ""
    ensures forall r :: 0 <= r < k ==> NamesOf(Copies(inner, k, next).0, |inner|, k, x)[r].Synth?
  {
    hide Copies;
    forall r | 0 <= r < k
      ensures NamesOf(Copies(inner, k, next).0, |inner|, k, x)[r].Synth?
    {
      CopiesAt(inner, k, next, r, x);
    }
  }

  lemma {:induction false} FlatSynth(counts: map<nat, nat>, ts: Term, outer: bool, next: nat)
    requires FlatTerm(counts, ts, outer, next).Some?
    ensures var r := FlatTerm(counts, ts, outer, next).value; AllSynth(r.nodeLists) && AllSynth(r.edgeLists)
    decreases ts, 0
  {
    hide FlatFactor;
    if ts != [] {
      FlatFactorSynth(counts, ts[0], outer, next);
      FlatSynth(counts, ts[1..], outer, FlatFactor(counts, ts[0], outer, next).value.next);
    }
  }

  lemma {:induction false} FlatFactorSynth(counts: map<nat, nat>, f: Factor, outer: bool, next: nat)
    requires FlatFactor(counts, f, outer, next).Some?
    ensures var r := FlatFactor(counts, f, outer, next).value; AllSynth(r.nodeLists) && AllSynth(r.edgeLists)
    decreases f, 0
  {
    hide Repeats, Copies, EdgeCount, HasFillers, Lists, TheEdge;
    if f.ParenF? {
      FlatSynth(counts, f.term, f.quant != Once || outer, next);
      var inner := FlatTerm(counts, f.term, f.quant != Once || outer, next).value;
      if f.quant != Once && Expands(f) {
        ListsSynth(inner.events, Repeats(counts, f).value, inner.next, 0, true);
        ListsSynth(inner.events, Repeats(counts, f).value, inner.next, 0, false);
      }
    }
  }

  // ------------------------------------------------------------------ which elements keep their own names

  /** For every element of the unrolled pattern, whether it is renamed: it is quantified, or stands in a quantified
      interior. */
  function Marks(counts: map<nat, nat>, ts: Term): (r: seq<bool>)
    ensures |r| == |Items(counts, ts)|
    decreases ts, 0
  {
    if ts == [] then [] else FactorMarks(counts, ts[0]) + Marks(counts, ts[1..])
  }

  function FactorMarks(counts: map<nat, nat>, f: Factor): (r: seq<bool>)
    ensures |r| == |FactorItems(counts, f)|
    decreases f, 0
  {
    match f
    case EdgeF(_, q) => [q != Once]
    case ParenF(_, term, q) =>
      if q == Once then Marks(counts, term) else seq(|FactorItems(counts, f)|, _ => true)
    case _ => seq(|FactorItems(counts, f)|, _ => false)
  }

  /** An element outside quantified interiors goes by the variable it declares, a renamed one by a generated name if it
      declares one; the rest has none. An edge that is not renamed is emitted as it stands. */
  ghost predicate NameFits(e: Event, renamed: bool) {
    match e
    case NodeEv(name, declared, _, _) =>
      if declared == "" then name == Anonymous else if renamed then name.Synth? else name == User(declared)
    case EdgeEv(edge, _, rename) =>
      if renamed && edge.declared != "" then rename.Synth? else rename == Anonymous
  }

  ghost predicate NamedBy(es: seq<Event>, marks: seq<bool>) {
    |marks| == |es| && forall x :: 0 <= x < |es| ==> NameFits(es[x], marks[x])
  }

  ghost predicate AllRenamed(es: seq<Event>) {
    forall x :: 0 <= x < |es| ==> NameFits(es[x], true)
  }

  lemma {:induction false} CopyRenames(inner: seq<Event>, next: nat)
    ensures AllRenamed(Copy(inner, next).0)
    decreases inner
  {
    if inner != [] {
      var next' := if Declared(inner[0]) == "" then next else next + 1;
      CopyRenames(inner[1..], next');
      var c := Copy(inner, next).0;
      assert c[1..] == Copy(inner[1..], next').0;
      assert NameFits(c[0], true);
    }
  }

  lemma {:induction false} CopiesRename(inner: seq<Event>, k: nat, next: nat)
    ensures AllRenamed(Copies(inner, k, next).0)
    decreases k
  {
    hide Copy, NameFits;
    if k > 0 {
      CopiesRename(inner, k - 1, next);
      CopyRenames(inner, Copies(inner, k - 1, next).1);
    }
  }

  lemma NamedConcat(a: seq<Event>, b: seq<Event>, m: seq<bool>, n: seq<bool>)
    requires NamedBy(a, m) && NamedBy(b, n)
    ensures NamedBy(a + b, m + n)
  {
    hide NameFits;
  }

  /** Names in the flattened events. */
  lemma {:induction false} FlatNames(counts: map<nat, nat>, ts: Term, next: nat)
    requires FlatTerm(counts, ts, false, next).Some?
    ensures NamedBy(FlatTerm(counts, ts, false, next).value.events, Marks(counts, ts))
    decreases ts, 0
  {
    hide FlatFactor, FactorMarks, NamedBy;
    if ts == [] {
      NothingNamed();
    } else {
      var a := FlatFactor(counts, ts[0], false, next).value;
      var b := FlatTerm(counts, ts[1..], false, a.next).value;
      FlatFactorNames(counts, ts[0], next);
      FlatNames(counts, ts[1..], a.next);
      NamedConcat(a.events, b.events, FactorMarks(counts, ts[0]), Marks(counts, ts[1..]));
    }
  }

  lemma NothingNamed()
    ensures NamedBy([], [])
  {
  }

  lemma {:induction false} FlatFactorNames(counts: map<nat, nat>, f: Factor, next: nat)
    requires FlatFactor(counts, f, false, next).Some?
    ensures NamedBy(FlatFactor(counts, f, false, next).value.events, FactorMarks(counts, f))
    decreases f, 0
  {
    hide Repeats, Copies, EdgeCount, HasFillers, TheEdge, Lists;
    FlatFactorBones(counts, f, false, next);
    if f.ParenF? {
      if f.quant == Once {
        FlatNames(counts, f.term, next);
      } else if Expands(f) {
        var inner := FlatTerm(counts, f.term, true, next).value;
        CopiesRename(inner.events, Repeats(counts, f).value, inner.next);
      }
    }
  }
}
