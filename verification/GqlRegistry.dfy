/** The GQL catalog that one text slot of the database stores: graph types and schemas with their members
    (gql/src/gql_transformer.cpp, gql/src/function/gql_function.cpp). */
module GqlRegistry {
  import opened Basics

  // ------------------------------------------------------------------ lines and fields

  predicate Free(s: string, c: char) { c !in s }

  /** A field that cannot break a line. */
  predicate Plain(s: string) { Free(s, '\t') && Free(s, '\n') }

  function IndexOf(s: string, c: char): (i: nat)
    ensures i <= |s| && (forall x :: 0 <= x < i ==> s[x] != c) && (i < |s| ==> s[i] == c)
  {
    if s == "" || s[0] == c then 0 else 1 + IndexOf(s[1..], c)
  }

  /** Pieces between separators. */
  function Split(s: string, c: char): (r: seq<string>)
    ensures r != []
    decreases |s|
  {
    var i := IndexOf(s, c);
    if i == |s| then [s] else [s[..i]] + Split(s[i + 1..], c)
  }

  /** The lines of a text; what follows the last line break is a line only if it is not empty. */
  function Lines(s: string): seq<string>
    decreases |s|
  {
    if s == "" then []
    else
      var i := IndexOf(s, '\n');
      if i == |s| then [s] else [s[..i]] + Lines(s[i + 1..])
  }

  function Join(fields: seq<string>): string {
    if fields == [] then "" else if |fields| == 1 then fields[0] else fields[0] + "\t" + Join(fields[1..])
  }

  function Render(lines: seq<seq<string>>): string {
    if lines == [] then "" else Join(lines[0]) + "\n" + Render(lines[1..])
  }

  ghost predicate PlainLines(lines: seq<seq<string>>) {
    forall x, y :: 0 <= x < |lines| && 0 <= y < |lines[x]| ==> Plain(lines[x][y])
  }

  lemma IndexAt(a: string, c: char, b: string)
    requires Free(a, c)
    ensures IndexOf(a + [c] + b, c) == |a|
  {
    var s := a + [c] + b;
    assert s[|a|] == c && forall x :: 0 <= x < |a| ==> s[x] == a[x];
  }

  lemma IndexNone(a: string, c: char)
    requires Free(a, c)
    ensures IndexOf(a, c) == |a|
  {
  }

  lemma {:induction false} SplitJoin(fields: seq<string>)
    requires fields != [] && forall x :: 0 <= x < |fields| ==> Free(fields[x], '\t')
    ensures Split(Join(fields), '\t') == fields
  {
    if |fields| == 1 {
      IndexNone(fields[0], '\t');
    } else {
      var a, b := fields[0], Join(fields[1..]);
      SplitJoin(fields[1..]);
      IndexAt(a, '\t', b);
      assert a + "\t" + b == a + ['\t'] + b;
      assert Join(fields)[..|a|] == a && Join(fields)[|a| + 1..] == b;
    }
  }

  lemma {:induction false} JoinPlain(fields: seq<string>)
    requires forall x :: 0 <= x < |fields| ==> Free(fields[x], '\n')
    ensures Free(Join(fields), '\n')
  {
    if |fields| > 1 {
      JoinPlain(fields[1..]);
    }
  }

  function Joined(lines: seq<seq<string>>): (r: seq<string>)
    ensures |r| == |lines| && forall x :: 0 <= x < |lines| ==> r[x] == Join(lines[x])
  {
    seq(|lines|, x requires 0 <= x < |lines| => Join(lines[x]))
  }

  lemma {:induction false} LinesOfRender(lines: seq<seq<string>>)
    requires PlainLines(lines)
    ensures Lines(Render(lines)) == Joined(lines)
  {
    if lines != [] {
      var a, b := Join(lines[0]), Render(lines[1..]);
      assert PlainLines(lines[1..]) by { assert forall x :: 0 <= x < |lines[1..]| ==> lines[1..][x] == lines[x + 1]; }
      LinesOfRender(lines[1..]);
      JoinPlain(lines[0]);
      IndexAt(a, '\n', b);
      assert a + "\n" + b == a + ['\n'] + b;
      var s := a + "\n" + b;
      assert s[..|a|] == a && s[|a| + 1..] == b;
      assert Joined(lines) == [a] + Joined(lines[1..]);
    }
  }

  lemma {:induction false} RenderConcat(a: seq<seq<string>>, b: seq<seq<string>>)
    ensures Render(a + b) == Render(a) + Render(b)
  {
    if a == [] {
      assert a + b == b;
    } else {
      assert (a + b)[1..] == a[1..] + b;
      RenderConcat(a[1..], b);
    }
  }

  // ------------------------------------------------------------------ graph types

  datatype Prop = Prop(name: string, typ: string)
  datatype NodeT = NodeT(name: string, props: seq<Prop>)
  datatype EdgeT = EdgeT(name: string, from: string, to: string, props: seq<Prop>)
  datatype Spec = Spec(nodes: seq<NodeT>, edges: seq<EdgeT>)

  type Registry = map<string, Spec>

  function PropField(p: Prop): string { p.name + ":" + p.typ }

  function PropFields(ps: seq<Prop>): (r: seq<string>)
    ensures |r| == |ps| && forall x :: 0 <= x < |ps| ==> r[x] == PropField(ps[x])
  {
    seq(|ps|, x requires 0 <= x < |ps| => PropField(ps[x]))
  }

  function NodeLine(n: NodeT): seq<string> { ["N", n.name] + PropFields(n.props) }

  function EdgeLine(e: EdgeT): seq<string> { ["E", e.name, e.from, e.to] + PropFields(e.props) }

  function NodeLines(ns: seq<NodeT>): (r: seq<seq<string>>)
    ensures |r| == |ns| && forall x :: 0 <= x < |ns| ==> r[x] == NodeLine(ns[x])
  {
    seq(|ns|, x requires 0 <= x < |ns| => NodeLine(ns[x]))
  }

  function EdgeLines(es: seq<EdgeT>): (r: seq<seq<string>>)
    ensures |r| == |es| && forall x :: 0 <= x < |es| ==> r[x] == EdgeLine(es[x])
  {
    seq(|es|, x requires 0 <= x < |es| => EdgeLine(es[x]))
  }

  function TypeLines(key: string, spec: Spec): seq<seq<string>> {
    [["T", key]] + NodeLines(spec.nodes) + EdgeLines(spec.edges)
  }

  /** The lines of all graph types, in the order of the keys. */
  function RegistryLines(keys: seq<string>, r: Registry): seq<seq<string>>
    requires forall x :: 0 <= x < |keys| ==> keys[x] in r
  {
    if keys == [] then [] else TypeLines(keys[0], r[keys[0]]) + RegistryLines(keys[1..], r)
  }

  /** Property fields without a colon are skipped. */
  function ParseProps(fields: seq<string>): seq<Prop> {
    if fields == [] then []
    else
      var i := IndexOf(fields[0], ':');
      (if i == |fields[0]| then [] else [Prop(fields[0][..i], fields[0][i + 1..])]) + ParseProps(fields[1..])
  }

  datatype TypeState = TypeState(types: Registry, current: Option<string>)

  /** One line of the slot, read for graph types; other lines are ignored. */
  function TypeStep(st: TypeState, line: string): TypeState {
    var parts := Split(line, '\t');
    if parts[0] == "T" && |parts| >= 2 then TypeState(st.types[parts[1] := Spec([], [])], Some(parts[1]))
    else if parts[0] == "N" && st.current.Some? && st.current.value in st.types && |parts| >= 2 then
      var spec := st.types[st.current.value];
      st.(types := st.types[st.current.value := spec.(nodes := spec.nodes + [NodeT(parts[1], ParseProps(parts[2..]))])])
    else if parts[0] == "E" && st.current.Some? && st.current.value in st.types && |parts| >= 4 then
      var spec := st.types[st.current.value];
      st.(types := st.types[st.current.value :=
                              spec.(edges := spec.edges + [EdgeT(parts[1], parts[2], parts[3], ParseProps(parts[4..]))])])
    else st
  }

  function TypeFold(st: TypeState, lines: seq<string>): TypeState
    decreases |lines|
  {
    if lines == [] then st else TypeFold(TypeStep(st, lines[0]), lines[1..])
  }

  /** Reads the graph types from the slot. */
  method DeserializeGraphTypes(data: string) returns (types: Registry)
    ensures forall r: Registry, c: Schemas :: IsSlot(data, r, c) ==> types == r
    ensures types == TypeFold(TypeState(map[], None), Lines(data)).types
  {
    hide IsSlot;
    var lines := Lines(data);
    var st := TypeState(map[], None);
    for i := 0 to |lines|
      invariant TypeFold(st, lines[i..]) == TypeFold(TypeState(map[], None), lines)
    {
      assert lines[i..][0] == lines[i] && lines[i..][1..] == lines[i + 1..];
      st := TypeStep(st, lines[i]);
    }
    assert lines[|lines|..] == [];
    types := st.types;
    forall r: Registry, c: Schemas | IsSlot(data, r, c)
      ensures types == r
    {
      SlotRead(data, r, c);
    }
  }

  lemma {:induction false} TypeFoldConcat(st: TypeState, a: seq<string>, b: seq<string>)
    ensures TypeFold(st, a + b) == TypeFold(TypeFold(st, a), b)
    decreases |a|
  {
    if a == [] {
      assert a + b == b;
    } else {
      assert (a + b)[1..] == a[1..] + b;
      TypeFoldConcat(TypeStep(st, a[0]), a[1..], b);
    }
  }

  // ------------------------------------------------------------------ reading back graph types

  ghost predicate PropsOk(ps: seq<Prop>) {
    forall x :: 0 <= x < |ps| ==> Plain(ps[x].name) && Plain(ps[x].typ) && Free(ps[x].name, ':')
  }

  ghost predicate SpecOk(s: Spec) {
    && (forall x :: 0 <= x < |s.nodes| ==> Plain(s.nodes[x].name) && PropsOk(s.nodes[x].props))
    && (forall x :: 0 <= x < |s.edges| ==>
          Plain(s.edges[x].name) && Plain(s.edges[x].from) && Plain(s.edges[x].to) && PropsOk(s.edges[x].props))
  }

  lemma {:induction false} PropsRoundTrip(ps: seq<Prop>)
    requires PropsOk(ps)
    ensures ParseProps(PropFields(ps)) == ps
  {
    if ps != [] {
      var p := ps[0];
      assert PropFields(ps)[1..] == PropFields(ps[1..]);
      PropsRoundTrip(ps[1..]);
      IndexAt(p.name, ':', p.typ);
      assert PropField(p) == p.name + [':'] + p.typ;
      assert PropField(p)[..|p.name|] == p.name && PropField(p)[|p.name| + 1..] == p.typ;
    }
  }

  lemma PropFieldsPlain(ps: seq<Prop>)
    requires PropsOk(ps)
    ensures forall x :: 0 <= x < |ps| ==> Plain(PropFields(ps)[x])
  {
  }

  lemma NodeStep(st: TypeState, n: NodeT, key: string)
    requires Plain(n.name) && PropsOk(n.props) && st.current == Some(key) && key in st.types
    ensures var spec := st.types[key];
            TypeStep(st, Join(NodeLine(n))) == st.(types := st.types[key := spec.(nodes := spec.nodes + [n])])
  {
    PropFieldsPlain(n.props);
    SplitJoin(NodeLine(n));
    assert NodeLine(n)[2..] == PropFields(n.props);
    PropsRoundTrip(n.props);
  }

  lemma EdgeStep(st: TypeState, e: EdgeT, key: string)
    requires Plain(e.name) && Plain(e.from) && Plain(e.to) && PropsOk(e.props) && st.current == Some(key) && key in st.types
    ensures var spec := st.types[key];
            TypeStep(st, Join(EdgeLine(e))) == st.(types := st.types[key := spec.(edges := spec.edges + [e])])
  {
    PropFieldsPlain(e.props);
    SplitJoin(EdgeLine(e));
    assert EdgeLine(e)[4..] == PropFields(e.props);
    PropsRoundTrip(e.props);
  }

  lemma {:induction false} NodesRead(st: TypeState, ns: seq<NodeT>, key: string)
    requires (forall x :: 0 <= x < |ns| ==> Plain(ns[x].name) && PropsOk(ns[x].props)) && st.current == Some(key) && key in st.types
    ensures var spec := st.types[key];
            TypeFold(st, Joined(NodeLines(ns))) == st.(types := st.types[key := spec.(nodes := spec.nodes + ns)])
    decreases |ns|
  {
    hide TypeStep, NodeLine, PropsOk;
    var spec := st.types[key];
    if ns == [] {
      assert spec.nodes + ns == spec.nodes;
      assert st.types[key := spec] == st.types;
    } else {
      NodeStep(st, ns[0], key);
      var st' := st.(types := st.types[key := spec.(nodes := spec.nodes + [ns[0]])]);
      NodesRead(st', ns[1..], key);
      assert Joined(NodeLines(ns))[1..] == Joined(NodeLines(ns[1..]));
      assert spec.nodes + [ns[0]] + ns[1..] == spec.nodes + ns;
    }
  }

  lemma {:induction false} EdgesRead(st: TypeState, es: seq<EdgeT>, key: string)
    requires forall x :: 0 <= x < |es| ==> Plain(es[x].name) && Plain(es[x].from) && Plain(es[x].to) && PropsOk(es[x].props)
    requires st.current == Some(key) && key in st.types
    ensures var spec := st.types[key];
            TypeFold(st, Joined(EdgeLines(es))) == st.(types := st.types[key := spec.(edges := spec.edges + es)])
    decreases |es|
  {
    hide TypeStep, EdgeLine, PropsOk;
    var spec := st.types[key];
    if es == [] {
      assert spec.edges + es == spec.edges;
      assert st.types[key := spec] == st.types;
    } else {
      EdgeStep(st, es[0], key);
      var st' := st.(types := st.types[key := spec.(edges := spec.edges + [es[0]])]);
      EdgesRead(st', es[1..], key);
      assert Joined(EdgeLines(es))[1..] == Joined(EdgeLines(es[1..]));
      assert spec.edges + [es[0]] + es[1..] == spec.edges + es;
    }
  }

  lemma TypeRead(st: TypeState, key: string, spec: Spec)
    requires Plain(key) && SpecOk(spec)
    ensures TypeFold(st, Joined(TypeLines(key, spec))) == TypeState(st.types[key := spec], Some(key))
  {
    hide NodeLines, EdgeLines, PropsOk, Joined, TypeStep;
    var head := ["T", key];
    var st1 := TypeState(st.types[key := Spec([], [])], Some(key));
    TypeHead(st, key);
    var a, b := NodeLines(spec.nodes), EdgeLines(spec.edges);
    JoinedConcat([head] + a, b);
    JoinedConcat([head], a);
    TypeFoldConcat(st, Joined([head]) + Joined(a), Joined(b));
    TypeFoldConcat(st, Joined([head]), Joined(a));
    NodesRead(st1, spec.nodes, key);
    var st2 := TypeState(st1.types[key := Spec(spec.nodes, [])], Some(key));
    assert [] + spec.nodes == spec.nodes && [] + spec.edges == spec.edges;
    EdgesRead(st2, spec.edges, key);
    assert st2.types[key := Spec(spec.nodes, spec.edges)] == st.types[key := spec];
  }

  lemma TypeHead(st: TypeState, key: string)
    requires Plain(key)
    ensures TypeFold(st, Joined([["T", key]])) == TypeState(st.types[key := Spec([], [])], Some(key))
  {
    var head := ["T", key];
    SplitJoin(head);
    var lines := Joined([head]);
    assert lines[0] == Join(head) && lines[1..] == [];
  }

  /** Keys listed once each. */
  ghost predicate Lists(keys: seq<string>, all: set<string>) {
    && (forall x :: 0 <= x < |keys| ==> keys[x] in all) && (forall k :: k in all ==> k in keys)
    && (forall x, y :: 0 <= x < y < |keys| ==> keys[x] != keys[y])
  }

  ghost predicate RegistryOk(r: Registry) {
    forall k :: k in r ==> Plain(k) && SpecOk(r[k])
  }

  lemma {:induction false} RegistryRead(st: TypeState, keys: seq<string>, r: Registry)
    requires RegistryOk(r) && forall x :: 0 <= x < |keys| ==> keys[x] in r
    ensures var t := TypeFold(st, Joined(RegistryLines(keys, r))).types;
            && (forall k :: k in t <==> k in st.types || k in keys)
            && (forall k :: k in t ==> t[k] == if k in keys then r[k] else st.types[k])
    decreases |keys|
  {
    hide TypeLines, SpecOk, TypeStep;
    if keys != [] {
      var key := keys[0];
      TypeRead(st, key, r[key]);
      var a, b := TypeLines(key, r[key]), RegistryLines(keys[1..], r);
      assert Joined(a + b) == Joined(a) + Joined(b);
      TypeFoldConcat(st, Joined(a), Joined(b));
      RegistryRead(TypeState(st.types[key := r[key]], Some(key)), keys[1..], r);
    }
  }

  // ------------------------------------------------------------------ schemas and members

  datatype Kind = GRAPH | GRAPH_TYPE
  datatype Member = Member(physical: string, kind: Kind)

  /** Schemas, members by logical path, and logical paths by physical name. */
  datatype Schemas = Schemas(schemas: set<string>, members: map<string, Member>, back: map<string, string>)

  /** Drops the stale reverse entry, then registers both ways. */
  function AddMember(c: Schemas, logical: string, physical: string, kind: Kind): Schemas {
    var back := if logical in c.members then c.back - {c.members[logical].physical} else c.back;
    c.(members := c.members[logical := Member(physical, kind)], back := back[physical := logical])
  }

  function RemoveMember(c: Schemas, logical: string): Schemas {
    if logical in c.members then c.(members := c.members - {logical}, back := c.back - {c.members[logical].physical}) else c
  }

  /** The two maps are each other's inverse. */
  ghost predicate Inverse(c: Schemas) {
    && (forall l :: l in c.members ==> c.members[l].physical in c.back && c.back[c.members[l].physical] == l)
    && (forall p :: p in c.back ==> c.back[p] in c.members && c.members[c.back[p]].physical == p)
  }

  function SchemaLine(path: string): seq<string> { ["Z", path] }

  function MemberLine(logical: string, m: Member): seq<string> {
    ["M", logical, m.physical, if m.kind == GRAPH then "G" else "T"]
  }

  function SchemaLines(paths: seq<string>): (r: seq<seq<string>>)
    ensures |r| == |paths| && forall x :: 0 <= x < |paths| ==> r[x] == SchemaLine(paths[x])
  {
    seq(|paths|, x requires 0 <= x < |paths| => SchemaLine(paths[x]))
  }

  function MemberLines(keys: seq<string>, members: map<string, Member>): (r: seq<seq<string>>)
    requires forall x :: 0 <= x < |keys| ==> keys[x] in members
    ensures |r| == |keys| && forall x :: 0 <= x < |keys| ==> r[x] == MemberLine(keys[x], members[keys[x]])
  {
    seq(|keys|, x requires 0 <= x < |keys| => MemberLine(keys[x], members[keys[x]]))
  }

  /** One line of the slot, read for schemas and members. */
  function SchemaStep(c: Schemas, line: string): Schemas {
    if |line| < 2 || (line[0] != 'Z' && line[0] != 'M') || line[1] != '\t' then c
    else if line[0] == 'Z' then c.(schemas := c.schemas + {line[2..]})
    else
      var parts := Split(line[2..], '\t');
      if |parts| == 3 then AddMember(c, parts[0], parts[1], if parts[2] == "T" then GRAPH_TYPE else GRAPH) else c
  }

  function SchemaFold(c: Schemas, lines: seq<string>): Schemas
    decreases |lines|
  {
    if lines == [] then c else SchemaFold(SchemaStep(c, lines[0]), lines[1..])
  }

  /** Reads schemas and members from the slot. */
  method DeserializeSchemaCatalog(data: string) returns (c: Schemas)
    ensures forall r: Registry, d: Schemas :: IsSlot(data, r, d) ==> c == d
    ensures c == SchemaFold(Schemas({}, map[], map[]), Lines(data))
  {
    hide IsSlot;
    var lines := Lines(data);
    c := Schemas({}, map[], map[]);
    for i := 0 to |lines|
      invariant SchemaFold(c, lines[i..]) == SchemaFold(Schemas({}, map[], map[]), lines)
    {
      assert lines[i..][0] == lines[i] && lines[i..][1..] == lines[i + 1..];
      c := SchemaStep(c, lines[i]);
    }
    assert lines[|lines|..] == [];
    forall r: Registry, d: Schemas | IsSlot(data, r, d)
      ensures c == d
    {
      SlotRead(data, r, d);
    }
  }

  lemma {:induction false} SchemaFoldConcat(c: Schemas, a: seq<string>, b: seq<string>)
    ensures SchemaFold(c, a + b) == SchemaFold(SchemaFold(c, a), b)
    decreases |a|
  {
    if a == [] {
      assert a + b == b;
    } else {
      assert (a + b)[1..] == a[1..] + b;
      SchemaFoldConcat(SchemaStep(c, a[0]), a[1..], b);
    }
  }

  lemma TaggedLine(tag: char, rest: seq<string>)
    requires rest != []
    ensures var line := Join([[tag]] + rest); |line| >= 2 && line[0] == tag && line[1] == '\t' && line[2..] == Join(rest)
  {
    var fields := [[tag]] + rest;
    assert fields[1..] == rest;
    assert Join(fields) == [tag] + "\t" + Join(rest);
  }

  lemma SchemaLineRead(c: Schemas, path: string)
    ensures SchemaStep(c, Join(SchemaLine(path))) == c.(schemas := c.schemas + {path})
  {
    hide Split;
    TaggedLine('Z', [path]);
    assert SchemaLine(path) == [['Z']] + [path];
    assert Join([path]) == path;
  }

  lemma MemberLineRead(c: Schemas, logical: string, m: Member)
    requires Plain(logical) && Plain(m.physical)
    ensures SchemaStep(c, Join(MemberLine(logical, m))) == AddMember(c, logical, m.physical, m.kind)
  {
    hide Join, Split, AddMember;
    var rest := [logical, m.physical, if m.kind == GRAPH then "G" else "T"];
    assert MemberLine(logical, m) == [['M']] + rest;
    TaggedLine('M', rest);
    SplitJoin(rest);
  }

  /** A line of the other kind changes nothing. */
  lemma TypesIgnored(c: Schemas, line: seq<string>)
    requires line != [] && line[0] in {"T", "N", "E"}
    ensures SchemaStep(c, Join(line)) == c
  {
    assert Join(line)[0] in {'T', 'N', 'E'};
  }

  lemma SchemasIgnored(st: TypeState, line: seq<string>)
    requires line != [] && line[0] in {"Z", "M"} && forall x :: 0 <= x < |line| ==> Plain(line[x])
    ensures TypeStep(st, Join(line)) == st
  {
    SplitJoin(line);
  }

  lemma {:induction false} AllTypesIgnored(c: Schemas, lines: seq<seq<string>>)
    requires forall x :: 0 <= x < |lines| ==> lines[x] != [] && lines[x][0] in {"T", "N", "E"}
    ensures SchemaFold(c, Joined(lines)) == c
    decreases |lines|
  {
    hide SchemaStep;
    if lines != [] {
      TypesIgnored(c, lines[0]);
      AllTypesIgnored(c, lines[1..]);
      assert Joined(lines)[1..] == Joined(lines[1..]);
    }
  }

  lemma {:induction false} AllSchemasIgnored(st: TypeState, lines: seq<seq<string>>)
    requires PlainLines(lines) && forall x :: 0 <= x < |lines| ==> lines[x] != [] && lines[x][0] in {"Z", "M"}
    ensures TypeFold(st, Joined(lines)) == st
    decreases |lines|
  {
    hide TypeStep;
    if lines != [] {
      SchemasIgnored(st, lines[0]);
      assert PlainLines(lines[1..]) by { assert forall x :: 0 <= x < |lines[1..]| ==> lines[1..][x] == lines[x + 1]; }
      AllSchemasIgnored(st, lines[1..]);
      assert Joined(lines)[1..] == Joined(lines[1..]);
    }
  }

  lemma {:induction false} SchemasRead(c: Schemas, paths: seq<string>)
    ensures SchemaFold(c, Joined(SchemaLines(paths))) == c.(schemas := c.schemas + (set x | x in paths))
    decreases |paths|
  {
    hide SchemaStep;
    if paths == [] {
      assert c.schemas + (set x | x in paths) == c.schemas;
    } else {
      SchemaLineRead(c, paths[0]);
      SchemasRead(c.(schemas := c.schemas + {paths[0]}), paths[1..]);
      assert Joined(SchemaLines(paths))[1..] == Joined(SchemaLines(paths[1..]));
      assert c.schemas + {paths[0]} + (set x | x in paths[1..]) == c.schemas + (set x | x in paths);
    }
  }

  /** The members read so far, and the reverse entries that belong to them. */
  ghost predicate ReadSoFar(c: Schemas, d: Schemas, done: set<string>) {
    && (forall l :: l in d.members <==> l in c.members && l in done)
    && (forall l :: l in d.members ==> d.members[l] == c.members[l])
    && (forall p :: p in d.back <==> p in c.back && c.back[p] in done)
    && (forall p :: p in d.back ==> d.back[p] == c.back[p])
  }

  lemma MemberAdds(c: Schemas, d: Schemas, done: set<string>, l: string)
    requires Inverse(c) && ReadSoFar(c, d, done) && l in c.members && l !in done
    ensures ReadSoFar(c, AddMember(d, l, c.members[l].physical, c.members[l].kind), done + {l})
  {
  }

  /** Members still to be read: each once, with names that fit a line. */
  ghost predicate ToRead(c: Schemas, done: set<string>, keys: seq<string>) {
    && (forall x :: 0 <= x < |keys| ==> keys[x] in c.members && keys[x] !in done && Plain(keys[x]) && Plain(c.members[keys[x]].physical))
    && (forall x, y :: 0 <= x < y < |keys| ==> keys[x] != keys[y])
  }

  lemma ToReadNext(c: Schemas, done: set<string>, keys: seq<string>)
    requires ToRead(c, done, keys) && keys != []
    ensures ToRead(c, done + {keys[0]}, keys[1..])
    ensures forall x :: 0 <= x < |keys| ==> keys[x] in c.members
    ensures done + {keys[0]} + (set x | x in keys[1..]) == done + (set x | x in keys)
    ensures Joined(MemberLines(keys, c.members)) == [Join(MemberLine(keys[0], c.members[keys[0]]))] + Joined(MemberLines(keys[1..], c.members))
  {
  }

  lemma ToReadKeys(c: Schemas, done: set<string>, keys: seq<string>)
    requires ToRead(c, done, keys)
    ensures forall x :: 0 <= x < |keys| ==> keys[x] in c.members
  {
  }

  lemma {:induction false} MembersRead(c: Schemas, d: Schemas, done: set<string>, keys: seq<string>)
    requires Inverse(c) && ReadSoFar(c, d, done) && ToRead(c, done, keys)
    ensures forall x :: 0 <= x < |keys| ==> keys[x] in c.members
    ensures var e := SchemaFold(d, Joined(MemberLines(keys, c.members)));
            ReadSoFar(c, e, done + (set x | x in keys)) && e.schemas == d.schemas
    decreases |keys|
  {
    hide SchemaStep, MemberLine, Inverse, ReadSoFar, Joined, AddMember;
    ToReadKeys(c, done, keys);
    if keys == [] {
      assert done + (set x | x in keys) == done;
      assert Joined(MemberLines(keys, c.members)) == [];
    } else {
      var l := keys[0];
      var d' := AddMember(d, l, c.members[l].physical, c.members[l].kind);
      MemberLineRead(d, l, c.members[l]);
      MemberAdds(c, d, done, l);
      AddSchemas(d, l, c.members[l]);
      ToReadNext(c, done, keys);
      hide ToRead;
      MembersRead(c, d', done + {l}, keys[1..]);
      var rest := Joined(MemberLines(keys[1..], c.members));
      assert ([Join(MemberLine(l, c.members[l]))] + rest)[1..] == rest;
    }
  }

  lemma AddSchemas(d: Schemas, l: string, m: Member)
    ensures AddMember(d, l, m.physical, m.kind).schemas == d.schemas
  {
  }

  // ------------------------------------------------------------------ the slot

  ghost predicate CatalogOk(c: Schemas) {
    && Inverse(c) && (forall s :: s in c.schemas ==> Plain(s))
    && (forall l :: l in c.members ==> Plain(l) && Plain(c.members[l].physical))
  }

  lemma {:induction false} RegistryLinesOk(keys: seq<string>, r: Registry)
    requires RegistryOk(r) && forall x :: 0 <= x < |keys| ==> keys[x] in r
    ensures PlainLines(RegistryLines(keys, r))
    ensures forall x :: 0 <= x < |RegistryLines(keys, r)| ==> RegistryLines(keys, r)[x] != [] && RegistryLines(keys, r)[x][0] in {"T", "N", "E"}
    decreases |keys|
  {
    hide TypeLines;
    if keys != [] {
      RegistryLinesOk(keys[1..], r);
      TypeLinesOk(keys[0], r[keys[0]]);
      var a, b := TypeLines(keys[0], r[keys[0]]), RegistryLines(keys[1..], r);
      forall x | 0 <= x < |a + b|
        ensures (a + b)[x] != [] && (a + b)[x][0] in {"T", "N", "E"} && forall y :: 0 <= y < |(a + b)[x]| ==> Plain((a + b)[x][y])
      {
        if x < |a| {
          assert (a + b)[x] == a[x];
        } else {
          assert (a + b)[x] == b[x - |a|];
        }
      }
    }
  }

  lemma TypeLinesOk(key: string, spec: Spec)
    requires Plain(key) && SpecOk(spec)
    ensures PlainLines(TypeLines(key, spec))
    ensures forall x :: 0 <= x < |TypeLines(key, spec)| ==> TypeLines(key, spec)[x] != [] && TypeLines(key, spec)[x][0] in {"T", "N", "E"}
  {
    forall x | 0 <= x < |TypeLines(key, spec)|
      ensures var line := TypeLines(key, spec)[x];
              line != [] && line[0] in {"T", "N", "E"} && forall y :: 0 <= y < |line| ==> Plain(line[y])
    {
      var n := |spec.nodes|;
      if 1 <= x < n + 1 {
        PropFieldsPlain(spec.nodes[x - 1].props);
      } else if x >= n + 1 {
        PropFieldsPlain(spec.edges[x - n - 1].props);
      }
    }
  }

  lemma CatalogLinesOk(paths: seq<string>, logicals: seq<string>, c: Schemas)
    requires CatalogOk(c) && (forall x :: 0 <= x < |paths| ==> paths[x] in c.schemas) && (forall x :: 0 <= x < |logicals| ==> logicals[x] in c.members)
    ensures var ls := SchemaLines(paths) + MemberLines(logicals, c.members);
            PlainLines(ls) && forall x :: 0 <= x < |ls| ==> ls[x] != [] && ls[x][0] in {"Z", "M"}
  {
  }

  /** Reading the slot gives back both what was stored, whatever order the keys were written in. */
  lemma SlotRoundTrip(keys: seq<string>, r: Registry, paths: seq<string>, logicals: seq<string>, c: Schemas)
    requires RegistryOk(r) && CatalogOk(c) && Lists(keys, r.Keys) && Lists(paths, c.schemas) && Lists(logicals, c.members.Keys)
    ensures var text := Render(RegistryLines(keys, r)) + Render(SchemaLines(paths) + MemberLines(logicals, c.members));
            && TypeFold(TypeState(map[], None), Lines(text)).types == r
            && SchemaFold(Schemas({}, map[], map[]), Lines(text)) == c
  {
    hide TypeFold, SchemaFold, Render, Lines, PlainLines, RegistryOk, CatalogOk, SchemaLines, MemberLines, RegistryLines;
    var a, z, m := RegistryLines(keys, r), SchemaLines(paths), MemberLines(logicals, c.members);
    RegistryLinesOk(keys, r);
    CatalogLinesOk(paths, logicals, c);
    RenderConcat(a, z + m);
    PlainConcat(a, z + m);
    LinesOfRender(a + (z + m));
    JoinedConcat(a, z + m);
    TypesFromSlot(keys, r, z + m);
    SchemasFromSlot(a, paths, logicals, c);
  }

  /** The text the two writers leave in the shared slot, in any order of keys. */
  ghost predicate IsSlot(data: string, r: Registry, c: Schemas) {
    RegistryOk(r) && CatalogOk(c) && exists keys, paths, logicals ::
      && Lists(keys, r.Keys) && Lists(paths, c.schemas) && Lists(logicals, c.members.Keys)
      && data == Render(RegistryLines(keys, r)) + Render(SchemaLines(paths) + MemberLines(logicals, c.members))
  }

  lemma SlotRead(data: string, r: Registry, c: Schemas)
    requires IsSlot(data, r, c)
    ensures TypeFold(TypeState(map[], None), Lines(data)).types == r && SchemaFold(Schemas({}, map[], map[]), Lines(data)) == c
  {
    hide TypeFold, SchemaFold, Render, Lines, RegistryOk, CatalogOk, SchemaLines, MemberLines, RegistryLines;
    var keys, paths, logicals :|
      && Lists(keys, r.Keys) && Lists(paths, c.schemas) && Lists(logicals, c.members.Keys)
      && data == Render(RegistryLines(keys, r)) + Render(SchemaLines(paths) + MemberLines(logicals, c.members));
    SlotRoundTrip(keys, r, paths, logicals, c);
  }

  lemma JoinedConcat(a: seq<seq<string>>, b: seq<seq<string>>)
    ensures Joined(a + b) == Joined(a) + Joined(b)
  {
  }

  lemma TypesFromSlot(keys: seq<string>, r: Registry, others: seq<seq<string>>)
    requires RegistryOk(r) && Lists(keys, r.Keys)
    requires PlainLines(others) && forall x :: 0 <= x < |others| ==> others[x] != [] && others[x][0] in {"Z", "M"}
    ensures TypeFold(TypeState(map[], None), Joined(RegistryLines(keys, r)) + Joined(others)).types == r
  {
    hide TypeFold, PlainLines, RegistryOk, RegistryLines, Joined;
    var st, a := TypeState(map[], None), RegistryLines(keys, r);
    TypeFoldConcat(st, Joined(a), Joined(others));
    AllSchemasIgnored(TypeFold(st, Joined(a)), others);
    RegistryRead(st, keys, r);
  }

  lemma SchemasFromSlot(types: seq<seq<string>>, paths: seq<string>, logicals: seq<string>, c: Schemas)
    requires CatalogOk(c) && Lists(paths, c.schemas) && Lists(logicals, c.members.Keys)
    requires forall x :: 0 <= x < |types| ==> types[x] != [] && types[x][0] in {"T", "N", "E"}
    ensures SchemaFold(Schemas({}, map[], map[]), Joined(types) + Joined(SchemaLines(paths) + MemberLines(logicals, c.members))) == c
  {
    hide SchemaFold, Joined, CatalogOk, SchemaLines, MemberLines;
    var z, m, none := SchemaLines(paths), MemberLines(logicals, c.members), Schemas({}, map[], map[]);
    SchemaFoldConcat(none, Joined(types), Joined(z + m));
    AllTypesIgnored(none, types);
    JoinedConcat(z, m);
    SchemaFoldConcat(none, Joined(z), Joined(m));
    SchemasRead(none, paths);
    assert {} + (set x | x in paths) == c.schemas;
    SlotMembers(none.(schemas := c.schemas), logicals, c);
  }

  lemma PlainConcat(a: seq<seq<string>>, b: seq<seq<string>>)
    requires PlainLines(a) && PlainLines(b)
    ensures PlainLines(a + b)
  {
    var all := a + b;
    forall x, y | 0 <= x < |all| && 0 <= y < |all[x]|
      ensures Plain(all[x][y])
    {
      if x < |a| {
        assert all[x] == a[x];
      } else {
        assert all[x] == b[x - |a|];
      }
    }
  }

  lemma SlotMembers(d: Schemas, logicals: seq<string>, c: Schemas)
    requires CatalogOk(c) && Lists(logicals, c.members.Keys) && d == Schemas(c.schemas, map[], map[])
    ensures SchemaFold(d, Joined(MemberLines(logicals, c.members))) == c
  {
    hide SchemaFold, MemberLines, Joined;
    MembersRead(c, d, {}, logicals);
    var e := SchemaFold(d, Joined(MemberLines(logicals, c.members)));
    assert e.members == c.members;
    assert e.back == c.back;
  }
}
