/** Physical names of catalog members and the two maps between paths and names
    (gql/src/gql_transformer.cpp). */
module GqlNames {
  import opened Basics
  import opened GqlRegistry

  const PREFIX: string := "_gqlsch__"

  // ------------------------------------------------------------------ mangling

  /** The non-empty pieces of a path between slashes. */
  function Segments(path: string): (r: seq<string>)
    ensures forall x :: 0 <= x < |r| ==> r[x] != "" && Free(r[x], '/')
    decreases |path|
  {
    if path == "" then []
    else if path[0] == '/' then Segments(path[1..])
    else
      var n := IndexOf(path, '/');
      [path[..n]] + Segments(path[n..])
  }

  function Glue(segs: seq<string>): string {
    if segs == [] then "" else if |segs| == 1 then segs[0] else segs[0] + "__" + Glue(segs[1..])
  }

  function Mangle(path: string): string { PREFIX + Glue(Segments(path)) }

  /** The source's loop. */
  method ManglePhysical(path: string) returns (out: string)
    ensures out == Mangle(path)
  {
    hide Segments, Glue;
    var parts: seq<string> := [];
    out := PREFIX;
    var i := 0;
    assert path[0..] == path;
    NothingLeft();
    while i < |path|
      invariant i <= |path| && parts + Segments(path[i..]) == Segments(path)
      invariant out == PREFIX + Glue(parts)
    {
      var n := IndexOf(path[i..], '/');
      NextSegment(path, i);
      if path[i] == '/' {
        i := i + 1;
      } else {
        var seg := path[i..i + n];
        GlueMore(parts, seg);
        out := if parts == [] then out + seg else out + "__" + seg;
        assert parts + ([seg] + Segments(path[i + n..])) == (parts + [seg]) + Segments(path[i + n..]);
        parts := parts + [seg];
        i := i + n;
      }
    }
    assert path[|path|..] == "" && parts + [] == parts;
  }

  lemma NothingLeft()
    ensures Segments("") == [] && Glue([]) == ""
  {
  }

  lemma NextSegment(path: string, i: nat)
    requires i < |path|
    ensures var n := IndexOf(path[i..], '/');
            if path[i] == '/' then Segments(path[i..]) == Segments(path[i + 1..])
            else 0 < n && i + n <= |path| && Segments(path[i..]) == [path[i..i + n]] + Segments(path[i + n..])
  {
    var s := path[i..];
    var n := IndexOf(s, '/');
    assert s[1..] == path[i + 1..] && s[..n] == path[i..i + n] && s[n..] == path[i + n..];
  }

  lemma {:induction false} GlueMore(parts: seq<string>, seg: string)
    ensures Glue(parts + [seg]) == if parts == [] then seg else Glue(parts) + "__" + seg
  {
    if |parts| == 1 {
      assert (parts + [seg])[1..] == [seg];
    } else if |parts| > 1 {
      assert (parts + [seg])[1..] == parts[1..] + [seg];
      GlueMore(parts[1..], seg);
    }
  }

  /** The path of the given segments. */
  function PathOf(segs: seq<string>): string {
    if segs == [] then "" else "/" + segs[0] + PathOf(segs[1..])
  }

  lemma {:induction false} SegmentsOfPath(segs: seq<string>)
    requires forall x :: 0 <= x < |segs| ==> segs[x] != "" && Free(segs[x], '/')
    ensures Segments(PathOf(segs)) == segs
  {
    hide Segments;
    if segs == [] {
      NothingLeft();
    } else {
      var s, rest := segs[0], PathOf(segs[1..]);
      SegmentsOfPath(segs[1..]);
      var path := PathOf(segs);
      assert path[0] == '/' && path[0..] == path && path[1..] == s + rest;
      NextSegment(path, 0);
      FirstSegment(s, rest);
    }
  }

  lemma FirstSegment(s: string, rest: string)
    requires s != "" && Free(s, '/') && (rest == "" || rest[0] == '/')
    ensures Segments(s + rest) == [s] + Segments(rest)
  {
    var t := s + rest;
    assert forall x :: 0 <= x < |s| ==> t[x] == s[x];
    var n := IndexOf(t, '/');
    assert n == |s| by {
      assert n >= |s|;
      assert rest != "" ==> t[|s|] == '/';
    }
    assert t[..n] == s && t[n..] == rest;
  }

  // ------------------------------------------------------------------ which names are shared

  /** A segment without "__" inside. */
  predicate Single(s: string) {
    s != "" && Free(s, '/') && forall x :: 0 <= x < |s| - 1 ==> !(s[x] == '_' && s[x + 1] == '_')
  }

  ghost predicate AllSingle(segs: seq<string>) {
    segs != [] && forall x :: 0 <= x < |segs| ==> Single(segs[x])
  }

  predicate Ends(s: string) { s != "" && s[|s| - 1] == '_' }

  predicate Starts(s: string) { s != "" && s[0] == '_' }

  /** Between segments i and j there is nothing but segments "_", and exactly one of the two has an underscore
      on that side: it can be moved across. */
  ghost predicate Shifts(segs: seq<string>, i: nat, j: nat) {
    && i < j < |segs| && segs[i] != "_" && segs[j] != "_" && (forall m :: i < m < j ==> segs[m] == "_")
    && Ends(segs[i]) != Starts(segs[j])
  }

  ghost predicate Ambiguous(segs: seq<string>) {
    exists i: nat, j: nat :: Shifts(segs, i, j)
  }

  lemma GlueFirst(s: string, rest: seq<string>)
    requires rest != []
    ensures Glue([s] + rest) == s + "__" + Glue(rest)
  {
    assert ([s] + rest)[1..] == rest;
  }

  /** An underscore in front of the first segment that is not "_" is one in front of them all. */
  lemma {:induction false} LeadUnderscore(segs: seq<string>, j: nat)
    requires j < |segs| && forall m :: 0 <= m < j ==> segs[m] == "_"
    ensures Glue(segs[j := "_" + segs[j]]) == "_" + Glue(segs)
    decreases j
  {
    var other := segs[j := "_" + segs[j]];
    if |segs| > 1 {
      var rest := segs[1..];
      assert segs == [segs[0]] + rest && other == [other[0]] + other[1..];
      GlueFirst(segs[0], rest);
      GlueFirst(other[0], other[1..]);
      if j == 0 {
        assert other[1..] == rest;
        assert ("_" + segs[0]) + "__" + Glue(rest) == "_" + (segs[0] + "__" + Glue(rest));
      } else {
        assert other[1..] == rest[j - 1 := "_" + rest[j - 1]];
        LeadUnderscore(rest, j - 1);
        assert "_" + "__" + ("_" + Glue(rest)) == "_" + ("_" + "__" + Glue(rest));
      }
    }
  }

  /** Moving an underscore from the end of segment i to the start of segment j keeps the name. */
  lemma {:induction false} ShiftGlue(segs: seq<string>, i: nat, j: nat)
    requires i < j < |segs| && Ends(segs[i]) && forall m :: i < m < j ==> segs[m] == "_"
    ensures Glue(Shifted(segs, i, j)) == Glue(segs)
    decreases i
  {
    var other, s, rest := Shifted(segs, i, j), segs[0], segs[1..];
    assert segs == [s] + rest && other == [other[0]] + other[1..];
    GlueFirst(s, rest);
    GlueFirst(other[0], other[1..]);
    if i == 0 {
      var a := s[..|s| - 1];
      assert s == a + "_" && other[0] == a;
      assert other[1..] == rest[j - 1 := "_" + rest[j - 1]];
      LeadUnderscore(rest, j - 1);
      assert a + "__" + ("_" + Glue(rest)) == (a + "_") + "__" + Glue(rest);
    } else {
      assert other[0] == s && other[1..] == Shifted(rest, i - 1, j - 1);
      ShiftGlue(rest, i - 1, j - 1);
    }
  }

  function Shifted(segs: seq<string>, i: nat, j: nat): (r: seq<string>)
    requires i < j < |segs| && segs[i] != ""
    ensures |r| == |segs|
  {
    segs[i := segs[i][..|segs[i]| - 1]][j := "_" + segs[j]]
  }

  /** A path whose underscore can be moved shares its name. */
  lemma ShiftShares(segs: seq<string>, i: nat, j: nat) returns (other: seq<string>)
    requires AllSingle(segs) && Shifts(segs, i, j)
    ensures AllSingle(other) && other != segs && Glue(other) == Glue(segs)
  {
    var a, b := segs[i], segs[j];
    if Ends(a) {
      other := Shifted(segs, i, j);
      ShiftGlue(segs, i, j);
      var a', b' := a[..|a| - 1], "_" + b;
      assert Single(a') && Single(b') && other[i] == a' && |a'| != |a|;
    } else {
      var a', b' := a + "_", b[1..];
      other := segs[i := a'][j := b'];
      assert other[i] == a' && |a'| != |a|;
      assert Single(a') && Single(b');
      assert a'[..|a'| - 1] == a && "_" + b' == b;
      assert Shifted(other, i, j) == segs;
      ShiftGlue(other, i, j);
    }
  }

  /** Two lists whose names differ by one leading underscore: after the same number of segments "_" one has a
      leading underscore more. */
  lemma {:induction false} LeadCase(x: seq<string>, y: seq<string>) returns (j: nat)
    requires AllSingle(x) && AllSingle(y) && Glue(x) == "_" + Glue(y)
    ensures j < |x| && j < |y| && (forall m :: 0 <= m < j ==> x[m] == "_" && y[m] == "_")
    ensures x[j] != "_" && Starts(x[j]) && y[j] != "_" && !Starts(y[j])
    decreases |x|
  {
    GlueSplits(x);
    GlueSplits(y);
    var t, u := Glue(x), Glue(y);
    assert t[0] == '_' && t[1..] == u;
    if x[0] == "_" {
      assert |x| > 1;
      assert t[1] == '_' && t[2] == '_' && u[0] == '_' && u[1] == '_';
      SingleStops(y[0], u, 0);
      assert y[0] == "_" && |y| > 1;
      assert t[3..] == Glue(x[1..]) && u[3..] == Glue(y[1..]);
      assert Glue(x[1..]) == "_" + Glue(y[1..]) by {
        assert t == "_" + u && u == "___" + Glue(y[1..]);
        assert t[3..] == u[2..] == "_" + u[3..];
      }
      var k := LeadCase(x[1..], y[1..]);
      j := k + 1;
      assert forall m :: 0 < m < j ==> x[m] == x[1..][m - 1] && y[m] == y[1..][m - 1];
    } else {
      assert x[0][0] == '_' && |x[0]| >= 2 && x[0][1] == t[1] == u[0];
      j := 0;
    }
  }

  /** A segment without "__" that starts a text ends before the text's "__" is complete. */
  lemma SingleStops(s: string, t: string, k: nat)
    requires Single(s) && |s| <= |t| && t[..|s|] == s && k + 1 < |t| && t[k] == '_' && t[k + 1] == '_'
    ensures |s| <= k + 1
  {
    assert forall x :: 0 <= x < |s| ==> s[x] == t[x];
  }

  /** A name starts with the first segment, followed by a separator unless it is the only one. */
  lemma GlueSplits(x: seq<string>)
    requires AllSingle(x)
    ensures var t, s := Glue(x), x[0];
            && |t| >= |s| > 0 && t[..|s|] == s && (forall k :: 0 <= k < |s| ==> t[k] == s[k])
            && if |x| == 1 then t == s
               else |t| > |s| + 2 && t[|s|] == '_' && t[|s| + 1] == '_' && t[|s| + 2..] == Glue(x[1..]) && AllSingle(x[1..])
  {
    if |x| > 1 {
      assert x == [x[0]] + x[1..];
      GlueFirst(x[0], x[1..]);
      GlueNonempty(x[1..]);
    }
  }

  lemma {:induction false} GlueNonempty(x: seq<string>)
    requires AllSingle(x)
    ensures |Glue(x)| > 0
  {
  }

  /** Where two different lists have the same name, an underscore of the first can be moved. */
  lemma {:induction false} SharedMeansShift(a: seq<string>, b: seq<string>)
    requires AllSingle(a) && AllSingle(b) && Glue(a) == Glue(b) && a != b
    ensures Ambiguous(a)
    decreases |a|
  {
    GlueSplits(a);
    GlueSplits(b);
    var s, r := a[0], b[0];
    if s == r {
      assert |a| > 1 && |b| > 1 by {
        assert a == [s] + a[1..] && b == [r] + b[1..];
      }
      assert a[1..] != b[1..] by { assert a == [s] + a[1..] && b == [r] + b[1..]; }
      SharedMeansShift(a[1..], b[1..]);
      var i: nat, j: nat :| Shifts(a[1..], i, j);
      ShiftsLater(a, i, j);
    } else if |s| < |r| {
      LongerByOne(a, b);
      var j := LeadCase(a[1..], b[1..]);
      assert r[..|s|] == s && r[|s|] == '_';
      assert !Ends(s);
      ShiftsAtStart(a, j);
    } else {
      SameLengthSame(a, b);
      LongerByOne(b, a);
      var j := LeadCase(b[1..], a[1..]);
      ShiftsAtStart(a, j);
    }
  }

  lemma SameLengthSame(a: seq<string>, b: seq<string>)
    requires AllSingle(a) && AllSingle(b) && Glue(a) == Glue(b) && a[0] != b[0]
    ensures |a[0]| != |b[0]|
  {
    GlueSplits(a);
    GlueSplits(b);
  }

  lemma ShiftsLater(a: seq<string>, i: nat, j: nat)
    requires |a| > 1 && Shifts(a[1..], i, j)
    ensures Shifts(a, i + 1, j + 1)
  {
    var t := a[1..];
    assert forall m :: 0 <= m < |t| ==> t[m] == a[m + 1];
    forall m | i + 1 < m < j + 1
      ensures a[m] == "_"
    {
      assert t[m - 1] == "_";
    }
  }

  lemma ShiftsAtStart(a: seq<string>, j: nat)
    requires |a| > 1 && j < |a| - 1 && a[0] != "_" && a[1..][j] != "_" && Ends(a[0]) != Starts(a[1..][j])
    requires forall m :: 0 <= m < j ==> a[1..][m] == "_"
    ensures Ambiguous(a)
  {
    forall m | 0 < m < j + 1
      ensures a[m] == "_"
    {
      assert a[1..][m - 1] == "_";
    }
    assert Shifts(a, 0, j + 1);
  }

  /** A longer first segment of the same name has one underscore more, and nothing else. */
  lemma LongerByOne(a: seq<string>, b: seq<string>)
    requires AllSingle(a) && AllSingle(b) && Glue(a) == Glue(b) && |a[0]| < |b[0]|
    ensures |a| > 1 && |b| > 1 && AllSingle(a[1..]) && AllSingle(b[1..]) && Glue(a[1..]) == "_" + Glue(b[1..])
    ensures |b[0]| == |a[0]| + 1 && b[0][..|a[0]|] == a[0] && b[0][|a[0]|] == '_' && !Ends(a[0]) && Ends(b[0]) && a[0] != "_" && b[0] != "_"
  {
    GlueSplits(a);
    GlueSplits(b);
    var t, s, r := Glue(a), a[0], b[0];
    assert |a| > 1;
    assert r[|s|] == '_';
    SingleStops(r, t, |s|);
    assert |r| == |s| + 1;
    assert r[|s| - 1] == t[|s| - 1] == s[|s| - 1];
    assert |b| > 1;
    assert t[|s| + 2..] == Glue(a[1..]) && t[|r| + 2..] == Glue(b[1..]);
    assert t[|s| + 2] == '_';
    assert t[|s| + 2..] == [t[|s| + 2]] + t[|s| + 3..];
  }

  /** Another path without "__" in its segments has the same name if and only if an underscore of this one
      can be moved. */
  lemma SharedIffAmbiguous(segs: seq<string>)
    requires AllSingle(segs)
    ensures Ambiguous(segs) <==> exists other: seq<string> :: AllSingle(other) && other != segs && Glue(other) == Glue(segs)
  {
    if Ambiguous(segs) {
      var i: nat, j: nat :| Shifts(segs, i, j);
      var other := ShiftShares(segs, i, j);
    }
    if other: seq<string> :| AllSingle(other) && other != segs && Glue(other) == Glue(segs) {
      SharedMeansShift(segs, other);
    }
  }

  ghost predicate IsPath(path: string, segs: seq<string>) {
    AllSingle(segs) && path == PathOf(segs)
  }

  /** A path without "__" in its segments that no underscore can be moved in. */
  ghost predicate GoodPath(path: string) {
    exists segs: seq<string> :: IsPath(path, segs) && !Ambiguous(segs)
  }

  /** Such a path shares its name with no other path without "__" in its segments. */
  lemma MangleInjective(p: string, q: string, b: seq<string>)
    requires GoodPath(p) && IsPath(q, b) && Mangle(p) == Mangle(q)
    ensures p == q
  {
    var a :| IsPath(p, a) && !Ambiguous(a);
    SegmentsOfPath(a);
    SegmentsOfPath(b);
    assert Glue(a) == Mangle(p)[|PREFIX|..] && Glue(b) == Mangle(q)[|PREFIX|..];
    if a != b {
      SharedMeansShift(a, b);
    }
  }

  /** And one in which an underscore can be moved shares it. */
  lemma AmbiguousCollides(segs: seq<string>) returns (other: seq<string>)
    requires AllSingle(segs) && Ambiguous(segs)
    ensures AllSingle(other) && PathOf(other) != PathOf(segs) && Mangle(PathOf(other)) == Mangle(PathOf(segs))
  {
    var i: nat, j: nat :| Shifts(segs, i, j);
    other := ShiftShares(segs, i, j);
    SegmentsOfPath(segs);
    SegmentsOfPath(other);
  }

  /** A last segment may end in an underscore without harm. */
  lemma TrailingUnderscoreIsGood()
    ensures GoodPath(PathOf(["a", "b_"]))
  {
    var segs := ["a", "b_"];
    assert !Ends(segs[0]) && !Starts(segs[1]);
    assert IsPath(PathOf(segs), segs) && !Ambiguous(segs);
  }

  /** An underscore at the end of a segment before one without is enough for two paths to share a name. */
  lemma MangleCollides()
    ensures PathOf(["a_", "b"]) != PathOf(["a", "_b"]) && Mangle(PathOf(["a_", "b"])) == Mangle(PathOf(["a", "_b"]))
  {
    var p, q := ["a_", "b"], ["a", "_b"];
    SegmentsOfPath(p);
    SegmentsOfPath(q);
    assert p[1..] == ["b"] && q[1..] == ["_b"];
    assert Glue(p) == "a_" + "__" + "b" && Glue(q) == "a" + "__" + "_b";
    assert Glue(p) == Glue(q);
    assert PathOf(["b"]) == "/" + "b" + PathOf(["b"][1..]) && PathOf(["_b"]) == "/" + "_b" + PathOf(["_b"][1..]);
    assert PathOf(p)[2] == '_' && PathOf(q)[2] == '/';
  }

  // ------------------------------------------------------------------ the catalog object

  ghost predicate Reserved(name: string) {
    |name| >= |PREFIX| && name[..|PREFIX|] == PREFIX
  }

  /** A member's name is its mangled path, or its own name if it stands directly under the root. */
  ghost predicate NamedFor(logical: string, physical: string) {
    || (GoodPath(logical) && physical == Mangle(logical))
    || (logical == "/" + physical && !Reserved(physical))
  }

  lemma OneName(l: string, m: string, physical: string)
    requires NamedFor(l, physical) && NamedFor(m, physical)
    ensures l == m
  {
    MangleReserved(l);
    MangleReserved(m);
    if GoodPath(l) && GoodPath(m) && Mangle(l) == Mangle(m) {
      var b :| IsPath(m, b) && !Ambiguous(b);
      MangleInjective(l, m, b);
    }
  }

  lemma MangleReserved(path: string)
    ensures Reserved(Mangle(path))
  {
    assert Mangle(path)[..|PREFIX|] == PREFIX;
  }

  /** The name is free, or it is this member's already. */
  predicate Takes(c: Schemas, logical: string, physical: string) {
    physical !in c.back || c.back[physical] == logical
  }

  ghost predicate AllNamed(c: Schemas) {
    forall l :: l in c.members ==> NamedFor(l, c.members[l].physical)
  }

  class SchemaCatalog {
    var schemas: set<string>
    var members: map<string, Member>
    var physicalToLogical: map<string, string>

    ghost function Value(): Schemas
      reads this
    {
      Schemas(schemas, members, physicalToLogical)
    }

    constructor ()
      ensures Value() == Schemas({}, map[], map[]) && Inverse(Value())
    {
      schemas, members, physicalToLogical := {}, map[], map[];
    }

    /** The maps stay inverse to each other exactly if no other member has the name; members named for
        unambiguous paths never do. */
    method AddMember(logical: string, physical: string, kind: Kind)
      modifies this
      ensures Value() == GqlRegistry.AddMember(old(Value()), logical, physical, kind)
      ensures old(Inverse(Value())) ==> (Inverse(Value()) <==> Takes(old(Value()), logical, physical))
      ensures old(Inverse(Value()) && AllNamed(Value())) && NamedFor(logical, physical) ==> Inverse(Value()) && AllNamed(Value())
    {
      hide NamedFor;
      if Inverse(Value()) {
        AddInverseIff(Value(), logical, physical, kind);
        if AllNamed(Value()) && NamedFor(logical, physical) {
          NamedTakes(Value(), logical, physical, kind);
        }
      }
      if logical in members {
        physicalToLogical := physicalToLogical - {members[logical].physical};
      }
      members := members[logical := Member(physical, kind)];
      physicalToLogical := physicalToLogical[physical := logical];
    }

    method RemoveMemberByLogical(logical: string)
      modifies this
      ensures Value() == RemoveMember(old(Value()), logical)
      ensures old(Inverse(Value())) ==> Inverse(Value()) && logical !in members && forall p :: p in physicalToLogical ==> physicalToLogical[p] != logical
      ensures old(AllNamed(Value())) ==> AllNamed(Value())
    {
      hide NamedFor;
      if Inverse(Value()) {
        RemoveKeepsInverse(Value(), logical);
      }
      if logical in members {
        physicalToLogical := physicalToLogical - {members[logical].physical};
        members := members - {logical};
      }
    }

    /** The name of a member; a new qualified one is mangled and, on request, registered. */
    method ResolvePhysical(logical: string, createMapping: bool, kind: Kind) returns (physical: string)
      modifies this
      ensures physical == if logical in old(members) then old(members)[logical].physical else Mangle(logical)
      ensures Value() == if createMapping && logical !in old(members)
                         then GqlRegistry.AddMember(old(Value()), logical, physical, kind) else old(Value())
      ensures old(Inverse(Value())) ==>
                (Inverse(Value()) <==> logical in old(members) || !createMapping || Mangle(logical) !in old(physicalToLogical))
      ensures old(Inverse(Value()) && AllNamed(Value())) && GoodPath(logical) ==> Inverse(Value()) && AllNamed(Value())
    {
      hide GoodPath, Mangle;
      if logical in members {
        return members[logical].physical;
      }
      physical := ManglePhysical(logical);
      if createMapping {
        AddMember(logical, physical, kind);
      }
    }
  }

  /** Registering keeps the maps inverse if and only if the name is not another member's. */
  lemma AddInverseIff(c: Schemas, logical: string, physical: string, kind: Kind)
    requires Inverse(c)
    ensures Inverse(GqlRegistry.AddMember(c, logical, physical, kind)) <==> Takes(c, logical, physical)
  {
    var d := GqlRegistry.AddMember(c, logical, physical, kind);
    if !Takes(c, logical, physical) {
      var other := c.back[physical];
      assert other in d.members && d.members[other].physical == physical && d.back[physical] == logical;
    }
  }

  lemma NamedTakes(c: Schemas, logical: string, physical: string, kind: Kind)
    requires Inverse(c) && AllNamed(c) && NamedFor(logical, physical)
    ensures Takes(c, logical, physical) && AllNamed(GqlRegistry.AddMember(c, logical, physical, kind))
  {
    hide NamedFor;
    if physical in c.back {
      OneName(c.back[physical], logical, physical);
    }
  }

  lemma RemoveKeepsInverse(c: Schemas, logical: string)
    requires Inverse(c)
    ensures Inverse(RemoveMember(c, logical))
    ensures forall p :: p in RemoveMember(c, logical).back ==> RemoveMember(c, logical).back[p] != logical
  {
  }

  /** Registering "/a_/b" and then "/a/_b": both get one name, and the maps are not inverse any more. */
  lemma CollisionBreaksCatalog(kind: Kind)
    ensures var p, q := PathOf(["a_", "b"]), PathOf(["a", "_b"]);
            var c := GqlRegistry.AddMember(Schemas({}, map[], map[]), p, Mangle(p), kind);
            Inverse(c) && !Inverse(GqlRegistry.AddMember(c, q, Mangle(q), kind))
  {
    hide Mangle, PathOf;
    var p, q := PathOf(["a_", "b"]), PathOf(["a", "_b"]);
    MangleCollides();
    var none := Schemas({}, map[], map[]);
    AddInverseIff(none, p, Mangle(p), kind);
    AddInverseIff(GqlRegistry.AddMember(none, p, Mangle(p), kind), q, Mangle(q), kind);
  }
}
