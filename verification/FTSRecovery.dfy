/** Creating and dropping a full-text index as scripts of separately committed statements that may be cut
    off anywhere (fts/src/function/create_fts_index.cpp, drop_fts_index.cpp). */
module FTSRecovery {
  import opened Basics

  /** Tables of one index, the shared stop words, and everything else. */
  datatype Name = AppearsIn | AppearsInfo | Docs | Terms | StopCopy | DefaultStop | Other(text: string)

  /** Property names in lower case, with their types; a relationship table has no primary key. */
  datatype Schema = NodeTable(pk: string, props: set<(string, string)>) | RelTable(props: set<(string, string)>)

  /** A catalog entry; source and target are only used by relationship tables. */
  datatype Entry = Entry(schema: Schema, id: nat, source: nat, target: nat)

  /** The regular tables, the internal ones, the tokenize macro, the index entry, and the index object that
      the node table holds. */
  datatype Catalog = Catalog(regular: set<Name>, tables: map<Name, Entry>, macro: bool, index: bool, holder: bool, nextId: nat)

  const OWN: set<Name> := {AppearsIn, AppearsInfo, Docs, Terms, StopCopy}

  /** Schemas of the CREATE statements. */
  function Created(n: Name): Schema {
    match n
    case AppearsIn => RelTable({("tf", "UINT64")})
    case AppearsInfo => NodeTable("id", {("id", "SERIAL"), ("term", "STRING"), ("docid", "INT64")})
    case Docs => NodeTable("docid", {("docid", "INT64"), ("len", "UINT64")})
    case Terms => NodeTable("term", {("term", "STRING"), ("df", "UINT64")})
    case StopCopy => NodeTable("sw", {("sw", "STRING")})
    case DefaultStop => NodeTable("sw", {("sw", "STRING")})
    case Other(_) => RelTable({})
  }

  /** What the recognisers accept as left over from an interrupted script. */
  predicate IsResidue(c: Catalog, n: Name)
    requires n in c.tables
  {
    var e := c.tables[n];
    match n
    case AppearsIn =>
      && e.schema.RelTable?
      && (Terms in c.tables && Docs in c.tables ==> e.source == c.tables[Terms].id && e.target == c.tables[Docs].id)
      && e.schema.props == {("tf", "UINT64")}
    case AppearsInfo => e.schema == NodeTable("id", {("id", "SERIAL"), ("term", "STRING"), ("docid", "INT64")})
    case Docs => e.schema == NodeTable("docid", {("docid", "INT64"), ("len", "UINT64")})
    case Terms => e.schema == NodeTable("term", {("term", "STRING"), ("df", "UINT64")})
    case StopCopy => e.schema == NodeTable("sw", {("sw", "STRING")})
    case _ => false
  }

  // ------------------------------------------------------------------ statements

  datatype Stmt =
    | DropIfExists(name: Name)
    | DropTable(name: Name)
    | CreateNode(name: Name)
    | CreateNodeIfNotExists(name: Name)
    | CreateRel
    | Fill(name: Name)
    | CreateMacro
    | DropMacro
    | CreateIndex
    | DropIndex
    | TornDropIndex
    | Answer

  function Removed(c: Catalog, n: Name): Catalog {
    c.(tables := c.tables - {n})
  }

  function Added(c: Catalog, n: Name, source: nat, target: nat): Catalog {
    c.(tables := c.tables[n := Entry(Created(n), c.nextId, source, target)], nextId := c.nextId + 1)
  }

  /** A relationship table keeps the node tables it connects from being dropped. */
  predicate Referenced(c: Catalog, n: Name) {
    AppearsIn in c.tables && n in c.tables && (c.tables[AppearsIn].source == c.tables[n].id || c.tables[AppearsIn].target == c.tables[n].id)
  }

  /** None is an error. A regular table shadows an internal one. */
  function Exec(c: Catalog, s: Stmt): Option<Catalog> {
    match s
    case DropIfExists(n) =>
      if n in c.regular then Some(c.(regular := c.regular - {n}))
      else if n !in c.tables then Some(c)
      else if n != AppearsIn && Referenced(c, n) then None
      else Some(Removed(c, n))
    case DropTable(n) =>
      if n in c.regular then Some(c.(regular := c.regular - {n}))
      else if n !in c.tables || (n != AppearsIn && Referenced(c, n)) then None
      else Some(Removed(c, n))
    case CreateNode(n) => if n in c.regular || n in c.tables then None else Some(Added(c, n, 0, 0))
    case CreateNodeIfNotExists(n) => if n in c.regular || n in c.tables then Some(c) else Some(Added(c, n, 0, 0))
    case CreateRel =>
      if AppearsIn in c.regular || AppearsIn in c.tables || Terms !in c.tables || Docs !in c.tables then None
      else Some(Added(c, AppearsIn, c.tables[Terms].id, c.tables[Docs].id))
    case Fill(n) => if n in c.regular || n in c.tables then Some(c) else None
    case CreateMacro => if c.macro then None else Some(c.(macro := true))
    case DropMacro => if c.macro then Some(c.(macro := false)) else None
    case CreateIndex =>
      if c.index || Docs !in c.tables || Terms !in c.tables || AppearsIn !in c.tables then None
      else Some(c.(index := true, holder := true))
    case DropIndex => if c.index then Some(c.(index := false, holder := false)) else None
    case TornDropIndex => if c.index then Some(c.(index := false)) else None
    case Answer => Some(c)
  }

  function Run(c: Catalog, ss: seq<Stmt>): Option<Catalog>
    decreases |ss|
  {
    if ss == [] then Some(c)
    else
      var d := Exec(c, ss[0]);
      if d.None? then None else Run(d.value, ss[1..])
  }

  // ------------------------------------------------------------------ scripts

  /** Drops of the tables that are left over; None if one of them is not ours to drop. */
  function ResidueDrops(c: Catalog, ns: seq<Name>): Option<seq<Stmt>> {
    if ns == [] then Some([])
    else if ns[0] in c.regular then None
    else
      var rest := ResidueDrops(c, ns[1..]);
      if rest.None? then None
      else if ns[0] !in c.tables then rest
      else if IsResidue(c, ns[0]) then Some([DropIfExists(ns[0])] + rest.value)
      else None
  }

  /** The index's own stop words table is only used with options of its own. */
  function OwnTables(custom: bool): seq<Name> {
    [AppearsIn, AppearsInfo, Docs, Terms] + (if custom then [StopCopy] else [])
  }

  function Copies(numProps: nat): seq<Stmt> {
    if numProps == 0 then [] else Copies(numProps - 1) + [Fill(AppearsInfo)]
  }

  function StopTable(custom: bool): Name { if custom then StopCopy else DefaultStop }

  function MacroScript(c: Catalog): seq<Stmt> {
    (if c.macro then [DropMacro] else []) + [CreateMacro]
  }

  function BuildScript(custom: bool, numProps: nat): seq<Stmt> {
    (if custom then [CreateNode(StopCopy), Fill(StopCopy)] else [CreateNodeIfNotExists(DefaultStop), Fill(DefaultStop)])
    + [CreateNode(AppearsInfo)] + Copies(numProps)
    + [CreateNode(Docs), Fill(Docs), CreateNode(Terms), Fill(Terms), CreateRel, Fill(AppearsIn), DropTable(AppearsInfo)]
    + [CreateIndex, Answer]
  }

  /** The script of CREATE; None is a refusal before anything runs. */
  function CreateScript(c: Catalog, custom: bool, numProps: nat): Option<seq<Stmt>> {
    if c.index then None
    else
      var drops := ResidueDrops(c, OwnTables(custom));
      if drops.None? then None else Some(drops.value + MacroScript(c) + BuildScript(custom, numProps))
  }

  function DropsIfExist(ns: seq<Name>): seq<Stmt> {
    if ns == [] then [] else [DropIfExists(ns[0])] + DropsIfExist(ns[1..])
  }

  function DropScript(c: Catalog, custom: bool): Option<seq<Stmt>> {
    if !c.index then None
    else Some([DropIndex] + DropsIfExist(OwnTables(custom)) + (if c.macro then [DropMacro] else []) + [Answer])
  }

  // ------------------------------------------------------------------ what every statement keeps

  /** Every table present has the schema it is created with, and the relationship table never outlives the
      tables it connects. User tables may have any name. */
  ghost predicate Inv(c: Catalog) {
    && (forall n :: n in c.tables && n in OWN ==> c.tables[n].schema == Created(n))
    && (forall n :: n in c.tables ==> c.tables[n].id < c.nextId)
    && (forall n, m :: n in c.tables && m in c.tables && c.tables[n].id == c.tables[m].id ==> n == m)
    && (AppearsIn in c.tables ==> Linked(c))
  }

  ghost predicate Linked(c: Catalog) {
    && AppearsIn in c.tables && Terms in c.tables && Docs in c.tables
    && c.tables[AppearsIn].source == c.tables[Terms].id && c.tables[AppearsIn].target == c.tables[Docs].id
  }

  /** Every statement succeeds and keeps the invariant. */
  ghost predicate Good(c: Catalog, ss: seq<Stmt>)
    decreases |ss|
  {
    Inv(c) && (ss == [] || (Exec(c, ss[0]).Some? && Good(Exec(c, ss[0]).value, ss[1..])))
  }

  lemma {:induction false} GoodRuns(c: Catalog, ss: seq<Stmt>, k: nat)
    requires Good(c, ss) && k <= |ss|
    ensures Run(c, ss[..k]).Some? && Inv(Run(c, ss[..k]).value)
    decreases |ss|
  {
    hide Exec, Inv;
    if k > 0 {
      GoodRuns(Exec(c, ss[0]).value, ss[1..], k - 1);
      assert ss[..k][1..] == ss[1..][..k - 1];
    }
  }

  lemma {:induction false} GoodConcat(c: Catalog, a: seq<Stmt>, d: Catalog, b: seq<Stmt>)
    requires Good(c, a) && Run(c, a) == Some(d) && Good(d, b)
    ensures Good(c, a + b) && Run(c, a + b) == Run(d, b)
    decreases |a|
  {
    hide Exec, Inv;
    if a == [] {
      assert a + b == b;
    } else {
      assert (a + b)[1..] == a[1..] + b;
      GoodConcat(Exec(c, a[0]).value, a[1..], d, b);
    }
  }

  lemma GoodOne(c: Catalog, s: Stmt, d: Catalog)
    requires Inv(c) && Exec(c, s) == Some(d) && Inv(d)
    ensures Good(c, [s]) && Run(c, [s]) == Some(d)
  {
    assert [s][1..] == [];
  }

  // ------------------------------------------------------------------ single statements

  lemma RemoveKeeps(c: Catalog, n: Name)
    requires Inv(c) && (n in {Docs, Terms} ==> AppearsIn !in c.tables)
    ensures Inv(Removed(c, n))
  {
    hide Created;
    var d := Removed(c, n);
    assert AppearsIn in d.tables ==> n != Docs && n != Terms;
  }

  lemma DropOk(c: Catalog, n: Name)
    requires Inv(c) && n in OWN && n !in c.regular && (n in {Docs, Terms} ==> AppearsIn !in c.tables)
    ensures Exec(c, DropIfExists(n)) == Some(if n in c.tables then Removed(c, n) else c)
    ensures n in c.tables ==> Inv(Removed(c, n)) && Exec(c, DropTable(n)) == Some(Removed(c, n))
  {
    RemoveKeeps(c, n);
  }

  lemma AddKeeps(c: Catalog, n: Name)
    requires Inv(c) && n !in c.tables && n != AppearsIn
    ensures Inv(Added(c, n, 0, 0))
  {
  }

  lemma AddRelKeeps(c: Catalog)
    requires Inv(c) && AppearsIn !in c.tables && Docs in c.tables && Terms in c.tables
    ensures Inv(Added(c, AppearsIn, c.tables[Terms].id, c.tables[Docs].id))
  {
  }

  // ------------------------------------------------------------------ dropping what is left over

  ghost function Without(c: Catalog, ns: seq<Name>): Catalog
    decreases |ns|
  {
    if ns == [] then c else Without(Removed(c, ns[0]), ns[1..])
  }

  lemma {:induction false} WithoutIs(c: Catalog, ns: seq<Name>)
    ensures var d := Without(c, ns);
            && d.regular == c.regular && d.macro == c.macro && d.index == c.index && d.holder == c.holder && d.nextId == c.nextId
            && (forall n :: n in d.tables <==> n in c.tables && n !in ns)
            && (forall n :: n in d.tables ==> d.tables[n] == c.tables[n])
    decreases |ns|
  {
    if ns != [] {
      WithoutIs(Removed(c, ns[0]), ns[1..]);
    }
  }

  /** The relationship table goes first. */
  ghost predicate InOrder(c: Catalog, ns: seq<Name>) {
    && (forall x :: 0 <= x < |ns| ==> ns[x] in OWN)
    && (forall x, y :: 0 <= x < y < |ns| ==> ns[x] != ns[y])
    && (AppearsIn !in c.tables || (ns != [] && ns[0] == AppearsIn))
  }

  lemma RemoveAbsent(c: Catalog, n: Name)
    requires n !in c.tables
    ensures Removed(c, n) == c
  {
    assert c.tables - {n} == c.tables;
  }

  /** Leftovers are recognised as such. */
  lemma Recognised(c: Catalog, n: Name)
    requires Inv(c) && n in c.tables && n in OWN
    ensures IsResidue(c, n)
  {
  }

  lemma {:induction false} ResidueGood(c: Catalog, c0: Catalog, ns: seq<Name>)
    requires Inv(c) && Inv(c0) && InOrder(c, ns) && c.regular == c0.regular
    requires forall x :: 0 <= x < |ns| ==> (ns[x] in c.tables <==> ns[x] in c0.tables) && ns[x] !in c.regular
    ensures ResidueDrops(c0, ns).Some? && Good(c, ResidueDrops(c0, ns).value)
    ensures Run(c, ResidueDrops(c0, ns).value) == Some(Without(c, ns))
    decreases |ns|
  {
    if ns != [] {
      var n, d := ns[0], Removed(c, ns[0]);
      hide Exec, IsResidue;
      assert n !in c0.regular;
      DropOk(c, n);
      RemoveKeeps(c, n);
      ResidueGood(d, c0, ns[1..]);
      var rest := ResidueDrops(c0, ns[1..]).value;
      if n in c0.tables {
        Recognised(c0, n);
        assert ([DropIfExists(n)] + rest)[1..] == rest;
      } else {
        RemoveAbsent(c, n);
      }
    }
  }

  // ------------------------------------------------------------------ building

  /** The index's tables present, the macro, and whether the index is there. */
  ghost predicate Holds(c: Catalog, own: set<Name>, macro: bool, index: bool) {
    && Inv(c) && c.macro == macro && c.index == index && (forall n :: n in OWN ==> (n in c.tables <==> n in own))
    && c.regular !! {AppearsIn, AppearsInfo, Docs, Terms}
  }

  /** Everything that is not the index's stays as it is. */
  ghost predicate Untouched(c: Catalog, d: Catalog) {
    && c.regular == d.regular
    && (forall n :: n !in OWN && n != DefaultStop ==> (n in c.tables <==> n in d.tables))
    && (forall n :: n !in OWN && n != DefaultStop && n in c.tables ==> c.tables[n] == d.tables[n])
    && (DefaultStop in c.tables ==> DefaultStop in d.tables && d.tables[DefaultStop] == c.tables[DefaultStop])
  }

  lemma CreateNodeOk(c: Catalog, own: set<Name>, macro: bool, n: Name) returns (d: Catalog)
    requires Holds(c, own, macro, false) && n in OWN && n !in c.regular && n != AppearsIn && n !in own && AppearsIn !in own
    ensures Good(c, [CreateNode(n)]) && Run(c, [CreateNode(n)]) == Some(d)
    ensures Holds(d, own + {n}, macro, false) && Untouched(c, d) && (DefaultStop in d.tables <==> DefaultStop in c.tables)
  {
    d := Added(c, n, 0, 0);
    AddKeeps(c, n);
    GoodOne(c, CreateNode(n), d);
  }

  lemma FillOk(c: Catalog, n: Name)
    requires Inv(c) && (n in c.tables || n in c.regular)
    ensures Good(c, [Fill(n)]) && Run(c, [Fill(n)]) == Some(c)
  {
    GoodOne(c, Fill(n), c);
  }

  lemma {:induction false} CopiesOk(c: Catalog, numProps: nat)
    requires Inv(c) && AppearsInfo in c.tables
    ensures Good(c, Copies(numProps)) && Run(c, Copies(numProps)) == Some(c)
  {
    if numProps > 0 {
      CopiesOk(c, numProps - 1);
      FillOk(c, AppearsInfo);
      GoodConcat(c, Copies(numProps - 1), c, [Fill(AppearsInfo)]);
    }
  }

  lemma UntouchedTrans(a: Catalog, b: Catalog, c: Catalog)
    requires Untouched(a, b) && Untouched(b, c)
    ensures Untouched(a, c)
  {
  }

  /** A table is created and filled. */
  lemma TableOk(c: Catalog, own: set<Name>, macro: bool, n: Name) returns (d: Catalog)
    requires Holds(c, own, macro, false) && n in OWN && n !in c.regular && n != AppearsIn && n !in own && AppearsIn !in own
    ensures Good(c, [CreateNode(n), Fill(n)]) && Run(c, [CreateNode(n), Fill(n)]) == Some(d)
    ensures Holds(d, own + {n}, macro, false) && Untouched(c, d) && (DefaultStop in d.tables <==> DefaultStop in c.tables)
  {
    d := CreateNodeOk(c, own, macro, n);
    hide Good, Run, Untouched;
    FillOk(d, n);
    GoodConcat(c, [CreateNode(n)], d, [Fill(n)]);
    assert [CreateNode(n)] + [Fill(n)] == [CreateNode(n), Fill(n)];
  }

  /** The stop words are there; a user table may stand in for the shared ones. */
  ghost predicate StopReady(c: Catalog, custom: bool) {
    StopTable(custom) in c.tables || (!custom && DefaultStop in c.regular)
  }

  function StopScript(custom: bool): seq<Stmt> {
    if custom then [CreateNode(StopCopy), Fill(StopCopy)] else [CreateNodeIfNotExists(DefaultStop), Fill(DefaultStop)]
  }

  function StopSet(custom: bool): set<Name> { if custom then {StopCopy} else {} }

  lemma StopOk(c: Catalog, custom: bool, keep: set<Name>) returns (d: Catalog)
    requires Holds(c, keep, true, false) && keep <= {StopCopy} && (custom ==> keep == {} && StopCopy !in c.regular)
    ensures Good(c, StopScript(custom)) && Run(c, StopScript(custom)) == Some(d)
    ensures Holds(d, keep + StopSet(custom), true, false) && Untouched(c, d) && StopReady(d, custom)
    ensures DefaultStop in d.tables <==> DefaultStop in c.tables || (!custom && DefaultStop !in c.regular)
  {
    hide Good, Run, Untouched, Inv;
    if custom {
      d := TableOk(c, keep, true, StopCopy);
    } else {
      d := DefaultOk(c, keep);
    }
    assert keep + {} == keep;
  }

  lemma DefaultOk(c: Catalog, keep: set<Name>) returns (d: Catalog)
    requires Holds(c, keep, true, false) && keep <= {StopCopy}
    ensures Good(c, StopScript(false)) && Run(c, StopScript(false)) == Some(d)
    ensures Holds(d, keep, true, false) && Untouched(c, d) && StopReady(d, false)
    ensures DefaultStop in d.tables <==> DefaultStop in c.tables || DefaultStop !in c.regular
  {
    hide Untouched, Good, Run, Created, Inv;
    d := if DefaultStop in c.tables || DefaultStop in c.regular then c else Added(c, DefaultStop, 0, 0);
    AddDefault(c, d);
    UntouchedSelf(c);
    AddOutside(c, DefaultStop, 0, 0);
    GoodOne(c, CreateNodeIfNotExists(DefaultStop), d);
    FillOk(d, DefaultStop);
    GoodConcat(c, [CreateNodeIfNotExists(DefaultStop)], d, [Fill(DefaultStop)]);
    assert [CreateNodeIfNotExists(DefaultStop)] + [Fill(DefaultStop)] == StopScript(false);
  }

  lemma AddDefault(c: Catalog, d: Catalog)
    requires Inv(c) && d == (if DefaultStop in c.tables || DefaultStop in c.regular then c else Added(c, DefaultStop, 0, 0))
    ensures Inv(d)
  {
    if DefaultStop !in c.tables {
      AddKeeps(c, DefaultStop);
    }
  }

  lemma RelOk(c: Catalog, own: set<Name>) returns (d: Catalog)
    requires Holds(c, own, true, false) && {Docs, Terms} <= own && AppearsIn !in own
    ensures Good(c, [CreateRel]) && Run(c, [CreateRel]) == Some(d)
    ensures Holds(d, own + {AppearsIn}, true, false) && Untouched(c, d) && (DefaultStop in d.tables <==> DefaultStop in c.tables)
  {
    d := Added(c, AppearsIn, c.tables[Terms].id, c.tables[Docs].id);
    AddRelKeeps(c);
    GoodOne(c, CreateRel, d);
  }

  lemma DropInfoOk(c: Catalog, own: set<Name>) returns (d: Catalog)
    requires Holds(c, own, true, false) && AppearsInfo in own
    ensures Good(c, [DropTable(AppearsInfo)]) && Run(c, [DropTable(AppearsInfo)]) == Some(d)
    ensures Holds(d, own - {AppearsInfo}, true, false) && Untouched(c, d) && (DefaultStop in d.tables <==> DefaultStop in c.tables)
  {
    d := Removed(c, AppearsInfo);
    DropOk(c, AppearsInfo);
    GoodOne(c, DropTable(AppearsInfo), d);
  }

  lemma IndexOk(c: Catalog, own: set<Name>) returns (d: Catalog)
    requires Holds(c, own, true, false) && {Docs, Terms, AppearsIn} <= own
    ensures Good(c, [CreateIndex]) && Run(c, [CreateIndex]) == Some(d) && Good(d, [Answer]) && Run(d, [Answer]) == Some(d)
    ensures Holds(d, own, true, true) && Untouched(c, d) && d.holder && (DefaultStop in d.tables <==> DefaultStop in c.tables)
  {
    hide Untouched, Good, Run, Inv;
    d := c.(index := true, holder := true);
    FlagsKeep(c, d);
    FlagsOutside(c, d);
    GoodOne(c, CreateIndex, d);
    GoodOne(d, Answer, d);
  }

  /** Relationship table, end of the intermediate table, index entry. */
  lemma LinkOk(c: Catalog, own: set<Name>) returns (d: Catalog)
    requires Holds(c, own, true, false) && {AppearsInfo, Docs, Terms} <= own && AppearsIn !in own
    ensures var ss := [CreateRel, Fill(AppearsIn), DropTable(AppearsInfo), CreateIndex, Answer];
            Good(c, ss) && Run(c, ss) == Some(d)
    ensures Holds(d, (own - {AppearsInfo}) + {AppearsIn}, true, true) && Untouched(c, d) && d.holder
    ensures DefaultStop in d.tables <==> DefaultStop in c.tables
  {
    hide Good, Run, Untouched, Inv, Holds;
    var c1 := RelOk(c, own);
    HoldsInv(c1, own + {AppearsIn}, true, false);
    FillOk(c1, AppearsIn);
    var c2 := DropInfoOk(c1, own + {AppearsIn});
    assert (own + {AppearsIn}) - {AppearsInfo} == (own - {AppearsInfo}) + {AppearsIn};
    d := IndexOk(c2, (own - {AppearsInfo}) + {AppearsIn});
    LinkScript(c, c1, c2, d);
    UntouchedTrans(c, c1, c2);
    UntouchedTrans(c, c2, d);
  }

  lemma LinkScript(c: Catalog, c1: Catalog, c2: Catalog, d: Catalog)
    requires Good(c, [CreateRel]) && Run(c, [CreateRel]) == Some(c1)
    requires Good(c1, [Fill(AppearsIn)]) && Run(c1, [Fill(AppearsIn)]) == Some(c1)
    requires Good(c1, [DropTable(AppearsInfo)]) && Run(c1, [DropTable(AppearsInfo)]) == Some(c2)
    requires Good(c2, [CreateIndex]) && Run(c2, [CreateIndex]) == Some(d)
    requires Good(d, [Answer]) && Run(d, [Answer]) == Some(d)
    ensures var ss := [CreateRel, Fill(AppearsIn), DropTable(AppearsInfo), CreateIndex, Answer];
            Good(c, ss) && Run(c, ss) == Some(d)
  {
    hide Good, Run;
    GoodConcat(c, [CreateRel], c1, [Fill(AppearsIn)]);
    GoodConcat(c, [CreateRel] + [Fill(AppearsIn)], c1, [DropTable(AppearsInfo)]);
    GoodConcat(c, [CreateRel] + [Fill(AppearsIn)] + [DropTable(AppearsInfo)], c2, [CreateIndex]);
    GoodConcat(c, [CreateRel] + [Fill(AppearsIn)] + [DropTable(AppearsInfo)] + [CreateIndex], d, [Answer]);
    assert [CreateRel] + [Fill(AppearsIn)] + [DropTable(AppearsInfo)] + [CreateIndex] + [Answer]
        == [CreateRel, Fill(AppearsIn), DropTable(AppearsInfo), CreateIndex, Answer];
  }

  /** From a catalog without leftovers the build runs to the end. */
  lemma BuildOk(c: Catalog, custom: bool, numProps: nat, keep: set<Name>) returns (d: Catalog)
    requires Holds(c, keep, true, false) && keep <= {StopCopy} && (custom ==> keep == {} && StopCopy !in c.regular)
    ensures Good(c, BuildScript(custom, numProps)) && Run(c, BuildScript(custom, numProps)) == Some(d)
    ensures Holds(d, keep + StopSet(custom) + {Docs, Terms, AppearsIn}, true, true) && Untouched(c, d) && d.holder
    ensures StopReady(d, custom) && (DefaultStop in d.tables <==> DefaultStop in c.tables || (!custom && DefaultStop !in c.regular))
  {
    hide Good, Run, Untouched, Inv, Holds, BuildScript, StopScript, Copies;
    var own := keep + StopSet(custom);
    var c1 := StopOk(c, custom, keep);
    HoldsRegular(c, keep, true, false);
    SameRegular(c, c1);
    var c2 := CreateNodeOk(c1, own, true, AppearsInfo);
    HoldsInv(c2, own + {AppearsInfo}, true, false);
    SameRegular(c1, c2);
    CopiesOk(c2, numProps);
    var c3 := TableOk(c2, own + {AppearsInfo}, true, Docs);
    SameRegular(c2, c3);
    var c4 := TableOk(c3, own + {AppearsInfo} + {Docs}, true, Terms);
    var all := own + {AppearsInfo} + {Docs} + {Terms};
    d := LinkOk(c4, all);
    BuildGlue(c, c1, c2, c3, c4, d, custom, numProps);
    UntouchedTrans(c, c1, c2);
    UntouchedTrans(c, c2, c3);
    UntouchedTrans(c, c3, c4);
    UntouchedTrans(c, c4, d);
    SameRegular(c, d);
    StopStays(c1, d, custom, own, all);
    assert (all - {AppearsInfo}) + {AppearsIn} == keep + StopSet(custom) + {Docs, Terms, AppearsIn};
  }

  lemma BuildGlue(c: Catalog, c1: Catalog, c2: Catalog, c3: Catalog, c4: Catalog, d: Catalog, custom: bool, numProps: nat)
    requires Good(c, StopScript(custom)) && Run(c, StopScript(custom)) == Some(c1)
    requires Good(c1, [CreateNode(AppearsInfo)]) && Run(c1, [CreateNode(AppearsInfo)]) == Some(c2)
    requires Good(c2, Copies(numProps)) && Run(c2, Copies(numProps)) == Some(c2)
    requires Good(c2, [CreateNode(Docs), Fill(Docs)]) && Run(c2, [CreateNode(Docs), Fill(Docs)]) == Some(c3)
    requires Good(c3, [CreateNode(Terms), Fill(Terms)]) && Run(c3, [CreateNode(Terms), Fill(Terms)]) == Some(c4)
    requires var h := [CreateRel, Fill(AppearsIn), DropTable(AppearsInfo), CreateIndex, Answer]; Good(c4, h) && Run(c4, h) == Some(d)
    ensures Good(c, BuildScript(custom, numProps)) && Run(c, BuildScript(custom, numProps)) == Some(d)
  {
    hide Good, Run, Copies;
    var a, b := StopScript(custom), [CreateNode(AppearsInfo)];
    var e, f, g := Copies(numProps), [CreateNode(Docs), Fill(Docs)], [CreateNode(Terms), Fill(Terms)];
    var h := [CreateRel, Fill(AppearsIn), DropTable(AppearsInfo), CreateIndex, Answer];
    GoodConcat(c, a, c1, b);
    GoodConcat(c, a + b, c2, e);
    GoodConcat(c, a + b + e, c2, f);
    GoodConcat(c, a + b + e + f, c3, g);
    GoodConcat(c, a + b + e + f + g, c4, h);
    assert a + b + e + f + g + h == BuildScript(custom, numProps);
  }

  lemma HoldsInv(c: Catalog, own: set<Name>, macro: bool, index: bool)
    requires Holds(c, own, macro, index)
    ensures Inv(c) && forall n :: n in own && n in OWN ==> n in c.tables
  {
  }

  lemma HoldsRegular(c: Catalog, own: set<Name>, macro: bool, index: bool)
    requires Holds(c, own, macro, index)
    ensures c.regular !! {AppearsIn, AppearsInfo, Docs, Terms}
  {
  }

  lemma SameRegular(c: Catalog, d: Catalog)
    requires Untouched(c, d)
    ensures c.regular == d.regular
  {
  }

  lemma StopStays(c1: Catalog, d: Catalog, custom: bool, own: set<Name>, all: set<Name>)
    requires StopReady(c1, custom) && (DefaultStop in c1.tables <==> DefaultStop in d.tables) && own <= all && c1.regular == d.regular
    requires Holds(d, (all - {AppearsInfo}) + {AppearsIn}, true, true) && (custom ==> StopCopy in own)
    ensures StopReady(d, custom)
  {
  }

  // ------------------------------------------------------------------ whole scripts

  lemma MacroOk(c: Catalog) returns (d: Catalog)
    requires Inv(c)
    ensures Good(c, MacroScript(c)) && Run(c, MacroScript(c)) == Some(d) && d == c.(macro := true) && Inv(d)
  {
    d := c.(macro := true);
    var off := c.(macro := false);
    GoodOne(off, CreateMacro, d);
    if c.macro {
      GoodOne(c, DropMacro, off);
      GoodConcat(c, [DropMacro], off, [CreateMacro]);
    } else {
      assert MacroScript(c) == [] + [CreateMacro] == [CreateMacro];
    }
  }

  lemma OwnInOrder(c: Catalog, custom: bool)
    ensures InOrder(c, OwnTables(custom))
    ensures forall n :: n in OwnTables(custom) <==> n in OWN && (n == StopCopy ==> custom)
  {
    var ns := OwnTables(custom);
    assert ns[0] == AppearsIn && ns[1] == AppearsInfo && ns[2] == Docs && ns[3] == Terms && (custom ==> ns[4] == StopCopy);
  }

  /** No user table has one of the names the script uses. */
  predicate Free(c: Catalog, custom: bool) {
    forall x :: 0 <= x < |OwnTables(custom)| ==> OwnTables(custom)[x] !in c.regular
  }

  lemma FreeNames(c: Catalog, custom: bool)
    ensures Free(c, custom) <==> c.regular !! {AppearsIn, AppearsInfo, Docs, Terms} + StopSet(custom)
  {
    var ns := OwnTables(custom);
    assert ns[0] == AppearsIn && ns[1] == AppearsInfo && ns[2] == Docs && ns[3] == Terms && (custom ==> ns[4] == StopCopy);
  }

  /** What CREATE starts building from, whatever was left over. */
  lemma CleanedUp(c: Catalog, custom: bool)
    requires Inv(c) && !c.index && (!custom ==> StopCopy !in c.tables) && Free(c, custom)
    ensures var d := Without(c, OwnTables(custom)).(macro := true);
            Inv(Without(c, OwnTables(custom))) ==> Holds(d, {}, true, false) && Untouched(c, d)
    ensures DefaultStop in Without(c, OwnTables(custom)).tables <==> DefaultStop in c.tables
  {
    FreeNames(c, custom);
    hide Inv, Without, OwnTables, InOrder, Free;
    var d := Without(c, OwnTables(custom));
    WithoutIs(c, OwnTables(custom));
    OwnInOrder(c, custom);
    InvIgnoresMacro(d, true);
    assert forall n :: n in OWN ==> n !in d.tables;
    assert forall n :: n !in OWN ==> (n in d.tables <==> n in c.tables);
  }

  lemma InvIgnoresMacro(c: Catalog, macro: bool)
    ensures Inv(c.(macro := macro)) <==> Inv(c)
  {
  }

  /** What a finished CREATE leaves: exactly the three tables, the stop words, macro, index and holder. */
  ghost predicate Complete(before: Catalog, c: Catalog, custom: bool) {
    && Holds(c, StopSet(custom) + {Docs, Terms, AppearsIn}, true, true) && c.holder && StopReady(c, custom)
    && Untouched(before, c) && (DefaultStop in c.tables <==> DefaultStop in before.tables || (!custom && DefaultStop !in before.regular))
  }

  /** CREATE runs to the end from every reachable catalog without the index, each statement succeeding. */
  lemma CreateOk(c: Catalog, custom: bool, numProps: nat) returns (d: Catalog)
    requires Inv(c) && !c.index && (!custom ==> StopCopy !in c.tables) && Free(c, custom)
    ensures CreateScript(c, custom, numProps).Some? && Good(c, CreateScript(c, custom, numProps).value)
    ensures Run(c, CreateScript(c, custom, numProps).value) == Some(d) && Complete(c, d, custom)
  {
    FreeNames(c, custom);
    hide Inv, Good, Run, Without, BuildScript, MacroScript, ResidueDrops, Untouched, Holds, StopReady, InOrder;
    var ns := OwnTables(custom);
    OwnInOrder(c, custom);
    ResidueGood(c, c, ns);
    var c1 := Without(c, ns);
    var a := ResidueDrops(c, ns).value;
    GoodRuns(c, a, |a|);
    assert a[..|a|] == a;
    WithoutIs(c, ns);
    SameMacro(c, c1);
    var c2 := MacroOk(c1);
    CleanedUp(c, custom);
    d := BuildOk(c2, custom, numProps, {});
    GoodConcat(c, a, c1, MacroScript(c1));
    GoodConcat(c, a + MacroScript(c1), c2, BuildScript(custom, numProps));
    UntouchedTrans(c, c2, d);
    assert {} + StopSet(custom) + {Docs, Terms, AppearsIn} == StopSet(custom) + {Docs, Terms, AppearsIn};
  }

  lemma SameMacro(c: Catalog, d: Catalog)
    requires c.macro == d.macro
    ensures MacroScript(c) == MacroScript(d)
  {
  }

  /** The recognisers mirror the CREATE statements: a table is taken for a leftover exactly if it has the schema it
      would be created with and, for a relationship table whose ends exist, connects those. */
  lemma RecognisedIff(c: Catalog, n: Name)
    requires n in c.tables && n in OWN
    ensures IsResidue(c, n) <==>
            c.tables[n].schema == Created(n) && (n == AppearsIn && Terms in c.tables && Docs in c.tables ==> Linked(c))
  {
  }

  lemma {:induction false} DropsIff(c: Catalog, ns: seq<Name>)
    ensures ResidueDrops(c, ns).Some? <==>
            forall x :: 0 <= x < |ns| ==> ns[x] !in c.regular && (ns[x] in c.tables ==> IsResidue(c, ns[x]))
  {
    hide IsResidue;
    if ns != [] {
      DropsIff(c, ns[1..]);
      assert forall x :: 0 < x < |ns| ==> ns[1..][x - 1] == ns[x];
    }
  }

  /** In any catalog at all: CREATE goes ahead exactly if the index does not exist, no user table has one of its names,
      and every internal table with such a name is a leftover. */
  lemma CreateRunsIff(c: Catalog, custom: bool, numProps: nat)
    ensures CreateScript(c, custom, numProps).Some? <==>
            && !c.index && Free(c, custom)
            && forall x :: 0 <= x < |OwnTables(custom)| && OwnTables(custom)[x] in c.tables ==> IsResidue(c, OwnTables(custom)[x])
  {
    hide IsResidue;
    DropsIff(c, OwnTables(custom));
  }

  /** CREATE is refused exactly if the index exists or a user table has one of its names. */
  lemma CreateRefuses(c: Catalog, custom: bool, numProps: nat)
    requires Inv(c) && (!custom ==> StopCopy !in c.tables)
    ensures CreateScript(c, custom, numProps).Some? <==> !c.index && Free(c, custom)
  {
    hide Inv, ResidueDrops;
    if !c.index && Free(c, custom) {
      var d := CreateOk(c, custom, numProps);
    } else if !c.index && ResidueDrops(c, OwnTables(custom)).Some? {
      ResidueSpares(c, OwnTables(custom));
    }
  }

  lemma FlagsKeep(c: Catalog, d: Catalog)
    requires Inv(c) && d.regular == c.regular && d.tables == c.tables && d.nextId == c.nextId
    ensures Inv(d)
  {
  }

  // ------------------------------------------------------------------ what the scripts may touch

  predicate Mine(s: Stmt, custom: bool) {
    match s
    case DropIfExists(n) => n in OWN
    case DropTable(n) => n in OWN
    case CreateNode(n) => n in OWN && n != AppearsIn && (n == StopCopy ==> custom)
    case CreateNodeIfNotExists(n) => n == DefaultStop && !custom
    case _ => true
  }

  predicate AllMine(ss: seq<Stmt>, custom: bool) {
    forall x :: 0 <= x < |ss| ==> Mine(ss[x], custom)
  }

  /** Nothing outside the index changes but user tables with names of its own, and stop words only as the
      options say. */
  ghost predicate Outside(c: Catalog, d: Catalog, custom: bool) {
    && Untouched(c.(regular := d.regular), d) && d.regular <= c.regular && c.regular - OWN == d.regular - OWN
    && (custom ==> (DefaultStop in c.tables <==> DefaultStop in d.tables))
    && (DefaultStop in c.regular ==> (DefaultStop in c.tables <==> DefaultStop in d.tables))
    && (!custom ==> StopCopy in d.tables ==> StopCopy in c.tables)
  }

  /** Every statement of the scripts keeps the invariant, whatever tables the user has. */
  lemma ExecKeeps(c: Catalog, s: Stmt, custom: bool)
    requires Inv(c) && Mine(s, custom) && Exec(c, s).Some?
    ensures Inv(Exec(c, s).value)
  {
    hide Inv, Created;
    match s {
      case DropIfExists(n) => DropKeeps(c, n);
      case DropTable(n) => DropKeeps(c, n);
      case CreateNode(n) => AddOneKeeps(c, n);
      case CreateNodeIfNotExists(n) => AddOneKeeps(c, n);
      case CreateRel => AddRelOneKeeps(c);
      case _ => FlagsKeep(c, Exec(c, s).value);
    }
  }

  lemma DropKeeps(c: Catalog, n: Name)
    requires Inv(c)
    ensures n in c.tables && (n == AppearsIn || !Referenced(c, n)) ==> Inv(Removed(c, n))
    ensures Inv(c.(regular := c.regular - {n}))
  {
    if n in c.tables && (n == AppearsIn || !Referenced(c, n)) {
      RemoveKeeps(c, n);
    }
  }

  lemma AddOneKeeps(c: Catalog, n: Name)
    requires Inv(c)
    ensures n !in c.tables && n != AppearsIn ==> Inv(Added(c, n, 0, 0))
  {
    if n !in c.tables && n != AppearsIn {
      AddKeeps(c, n);
    }
  }

  lemma AddRelOneKeeps(c: Catalog)
    requires Inv(c)
    ensures AppearsIn !in c.tables && Docs in c.tables && Terms in c.tables ==>
              Inv(Added(c, AppearsIn, c.tables[Terms].id, c.tables[Docs].id))
  {
    if AppearsIn !in c.tables && Docs in c.tables && Terms in c.tables {
      AddRelKeeps(c);
    }
  }

  lemma ExecOutside(c: Catalog, s: Stmt, custom: bool)
    requires Mine(s, custom) && Exec(c, s).Some?
    ensures Outside(c, Exec(c, s).value, custom)
  {
    hide Untouched, Created, Outside;
    OutsideSelf(c, custom);
    match s {
      case DropIfExists(n) => DropOutside(c, n, custom);
      case DropTable(n) => DropOutside(c, n, custom);
      case CreateNode(n) => CreateOutside(c, n, 0, 0, custom);
      case CreateNodeIfNotExists(n) => CreateOutside(c, n, 0, 0, custom);
      case CreateRel => CreateOutside(c, AppearsIn, c.tables[Terms].id, c.tables[Docs].id, custom);
      case _ => FlagsAllOutside(c, Exec(c, s).value, custom);
    }
  }

  lemma DropOutside(c: Catalog, n: Name, custom: bool)
    requires n in OWN
    ensures Outside(c, Removed(c, n), custom) && Outside(c, c.(regular := c.regular - {n}), custom)
  {
    hide Untouched;
    RemoveOutside(c, n);
    assert c.(regular := c.regular) == c;
    var d := c.(regular := c.regular - {n});
    UntouchedSelf(d);
    assert c.regular - OWN == d.regular - OWN;
  }

  lemma CreateOutside(c: Catalog, n: Name, source: nat, target: nat, custom: bool)
    requires (n in OWN && (n == StopCopy ==> custom)) || (n == DefaultStop && !custom)
    ensures n !in c.tables && n !in c.regular ==> Outside(c, Added(c, n, source, target), custom)
  {
    hide Untouched, Created;
    AddOutside(c, n, source, target);
    assert c.(regular := c.regular) == c;
  }

  lemma FlagsAllOutside(c: Catalog, d: Catalog, custom: bool)
    requires c.tables == d.tables && c.regular == d.regular
    ensures Outside(c, d, custom)
  {
    FlagsOutside(c, d);
    assert c.(regular := d.regular) == c;
  }

  lemma UntouchedSelf(c: Catalog)
    ensures Untouched(c, c)
  {
  }

  lemma RemoveOutside(c: Catalog, n: Name)
    requires n in OWN
    ensures Untouched(c, Removed(c, n))
  {
  }

  lemma AddOutside(c: Catalog, n: Name, source: nat, target: nat)
    requires n in OWN || n == DefaultStop
    ensures n !in c.tables ==> Untouched(c, Added(c, n, source, target))
  {
  }

  lemma FlagsOutside(c: Catalog, d: Catalog)
    requires c.tables == d.tables && c.regular == d.regular
    ensures Untouched(c, d)
  {
  }

  lemma {:induction false} DropsMine(ns: seq<Name>, custom: bool)
    requires forall x :: 0 <= x < |ns| ==> ns[x] in OWN
    ensures AllMine(DropsIfExist(ns), custom)
    decreases |ns|
  {
    if ns != [] {
      DropsMine(ns[1..], custom);
    }
  }

  lemma {:induction false} ResidueMine(c: Catalog, ns: seq<Name>, custom: bool)
    requires (forall x :: 0 <= x < |ns| ==> ns[x] in OWN) && ResidueDrops(c, ns).Some?
    ensures AllMine(ResidueDrops(c, ns).value, custom)
    decreases |ns|
  {
    if ns != [] {
      ResidueMine(c, ns[1..], custom);
    }
  }

  lemma {:induction false} CopiesMine(numProps: nat, custom: bool)
    ensures AllMine(Copies(numProps), custom)
  {
    if numProps > 0 {
      CopiesMine(numProps - 1, custom);
    }
  }

  lemma ScriptsMine(c: Catalog, custom: bool, numProps: nat)
    ensures CreateScript(c, custom, numProps).Some? ==> AllMine(CreateScript(c, custom, numProps).value, custom)
    ensures DropScript(c, custom).Some? ==> AllMine(DropScript(c, custom).value, custom)
  {
    hide ResidueDrops, DropsIfExist, Copies;
    var ns := OwnTables(custom);
    assert forall x :: 0 <= x < |ns| ==> ns[x] in OWN;
    if ResidueDrops(c, ns).Some? {
      ResidueMine(c, ns, custom);
    }
    DropsMine(ns, custom);
    CopiesMine(numProps, custom);
  }

  // ------------------------------------------------------------------ attempts

  /** A CREATE or DROP cut off after some statements, or a DROP cut off inside its first one. */
  datatype Attempt = CreateCut(after: nat) | DropCut(after: nat) | TornDrop

  /** Runs statements until one fails; those before it stay done. */
  function RunFar(c: Catalog, ss: seq<Stmt>): Catalog
    decreases |ss|
  {
    if ss == [] || Exec(c, ss[0]).None? then c else RunFar(Exec(c, ss[0]).value, ss[1..])
  }

  function Cut(c: Catalog, script: Option<seq<Stmt>>, after: nat): Catalog {
    if script.None? then c else RunFar(c, if after < |script.value| then script.value[..after] else script.value)
  }

  function After(c: Catalog, a: Attempt, custom: bool, numProps: nat): Catalog {
    match a
    case CreateCut(k) => Cut(c, CreateScript(c, custom, numProps), k)
    case DropCut(k) => Cut(c, DropScript(c, custom), k)
    case TornDrop => if c.index then Exec(c, TornDropIndex).value else c
  }

  function AfterAll(c: Catalog, attempts: seq<Attempt>, custom: bool, numProps: nat): Catalog {
    if attempts == [] then c else After(AfterAll(c, attempts[..|attempts| - 1], custom, numProps), attempts[|attempts| - 1], custom, numProps)
  }

  lemma {:induction false} RunFarKeeps(c: Catalog, ss: seq<Stmt>, custom: bool)
    requires Inv(c) && AllMine(ss, custom)
    ensures Inv(RunFar(c, ss)) && Outside(c, RunFar(c, ss), custom)
    decreases |ss|
  {
    hide Exec, Inv, Outside, Mine;
    if ss == [] || Exec(c, ss[0]).None? {
      OutsideSelf(c, custom);
    } else {
      var d := Exec(c, ss[0]).value;
      ExecKeeps(c, ss[0], custom);
      ExecOutside(c, ss[0], custom);
      assert forall x :: 0 <= x < |ss[1..]| ==> ss[1..][x] == ss[x + 1];
      RunFarKeeps(d, ss[1..], custom);
      OutsideTrans(c, d, RunFar(d, ss[1..]), custom);
    }
  }

  lemma CutKeeps(c: Catalog, script: Option<seq<Stmt>>, k: nat, custom: bool)
    requires Inv(c) && (script.Some? ==> AllMine(script.value, custom))
    ensures Inv(Cut(c, script, k)) && Outside(c, Cut(c, script, k), custom)
  {
    hide Inv, RunFar, Mine, Outside;
    if script.None? {
      OutsideSelf(c, custom);
    } else if k < |script.value| {
      RunFarKeeps(c, script.value[..k], custom);
    } else {
      RunFarKeeps(c, script.value, custom);
    }
  }

  lemma AttemptKeeps(c: Catalog, a: Attempt, custom: bool, numProps: nat)
    requires Inv(c)
    ensures Inv(After(c, a, custom, numProps)) && Outside(c, After(c, a, custom, numProps), custom)
  {
    hide AllMine, Cut;
    ScriptsMine(c, custom, numProps);
    match a {
      case CreateCut(k) => CutKeeps(c, CreateScript(c, custom, numProps), k, custom);
      case DropCut(k) => CutKeeps(c, DropScript(c, custom), k, custom);
      case TornDrop => FlagsKeep(c, After(c, a, custom, numProps));
    }
  }

  lemma OutsideTrans(a: Catalog, b: Catalog, c: Catalog, custom: bool)
    requires Outside(a, b, custom) && Outside(b, c, custom)
    ensures Outside(a, c, custom)
  {
    assert DefaultStop in a.regular - OWN <==> DefaultStop in b.regular - OWN;
  }

  /** Any sequence of interrupted attempts, from any catalog: every table present is recognisable, the
      relationship table has both its ends, and nothing else has changed but user tables with names of the
      index. */
  lemma {:induction false} AttemptsKeep(c: Catalog, attempts: seq<Attempt>, custom: bool, numProps: nat)
    requires Inv(c)
    ensures Inv(AfterAll(c, attempts, custom, numProps)) && Outside(c, AfterAll(c, attempts, custom, numProps), custom)
  {
    hide Inv, After, Outside;
    if attempts == [] {
      OutsideSelf(c, custom);
    } else {
      var before := AfterAll(c, attempts[..|attempts| - 1], custom, numProps);
      AttemptsKeep(c, attempts[..|attempts| - 1], custom, numProps);
      AttemptKeeps(before, attempts[|attempts| - 1], custom, numProps);
      OutsideTrans(c, before, After(before, attempts[|attempts| - 1], custom, numProps), custom);
    }
  }

  lemma OutsideSelf(c: Catalog, custom: bool)
    ensures Outside(c, c, custom)
  {
  }

  lemma OutsideStop(c: Catalog, d: Catalog, custom: bool)
    requires Outside(c, d, custom) && (!custom ==> StopCopy !in c.tables)
    ensures !custom ==> StopCopy !in d.tables
  {
  }

  /** The same tables, schemas, macro and index; internal ids may differ. */
  ghost predicate SameUpToIds(c: Catalog, d: Catalog) {
    && c.regular == d.regular && c.tables.Keys == d.tables.Keys
    && (forall n :: n in c.tables && n !in OWN && n != DefaultStop ==> c.tables[n] == d.tables[n])
    && (forall n :: n in c.tables && n in OWN ==> c.tables[n].schema == d.tables[n].schema)
    && Linked(c) && Linked(d) && c.macro == d.macro && c.index == d.index && c.holder == d.holder
  }

  /** Without a user table of such a name no attempt drops a user table. */
  lemma {:induction false} AttemptsSpare(c: Catalog, attempts: seq<Attempt>, custom: bool, numProps: nat)
    requires Free(c, custom)
    ensures AfterAll(c, attempts, custom, numProps).regular == c.regular
  {
    hide After, Free;
    if attempts != [] {
      var before := AfterAll(c, attempts[..|attempts| - 1], custom, numProps);
      AttemptsSpare(c, attempts[..|attempts| - 1], custom, numProps);
      FreeByRegular(c, before, custom);
      AttemptSpares(before, attempts[|attempts| - 1], custom, numProps);
    }
  }

  lemma FreeByRegular(c: Catalog, d: Catalog, custom: bool)
    requires c.regular == d.regular
    ensures Free(c, custom) <==> Free(d, custom)
  {
  }

  /** Whatever attempts came before: a CREATE that runs to the end leaves the catalog a first CREATE would. */
  lemma Recovers(c: Catalog, attempts: seq<Attempt>, custom: bool, numProps: nat) returns (first: Catalog, last: Catalog)
    requires Inv(c) && !c.index && (!custom ==> StopCopy !in c.tables) && Free(c, custom)
    requires !AfterAll(c, attempts, custom, numProps).index
    ensures var now := AfterAll(c, attempts, custom, numProps);
            && CreateScript(c, custom, numProps).Some? && Run(c, CreateScript(c, custom, numProps).value) == Some(first)
            && CreateScript(now, custom, numProps).Some? && Run(now, CreateScript(now, custom, numProps).value) == Some(last)
    ensures SameUpToIds(first, last)
  {
    hide Good, AfterAll, CreateScript, Run;
    var now := AfterAll(c, attempts, custom, numProps);
    AttemptsKeep(c, attempts, custom, numProps);
    AttemptsSpare(c, attempts, custom, numProps);
    OutsideStop(c, now, custom);
    first := CreateOk(c, custom, numProps);
    last := CreateOk(now, custom, numProps);
    BothComplete(c, now, first, last, custom);
  }

  lemma BothComplete(c: Catalog, now: Catalog, first: Catalog, last: Catalog, custom: bool)
    requires Outside(c, now, custom) && c.regular == now.regular && Complete(c, first, custom) && Complete(now, last, custom)
    ensures SameUpToIds(first, last)
  {
    SameOwn(c, now, first, last, custom);
    hide Holds, Inv;
    assert first.tables.Keys == last.tables.Keys by {
      forall n
        ensures n in first.tables <==> n in last.tables
      {
      }
    }
  }

  lemma SameOwn(c: Catalog, now: Catalog, first: Catalog, last: Catalog, custom: bool)
    requires Complete(c, first, custom) && Complete(now, last, custom)
    ensures forall n :: n in OWN ==> (n in first.tables <==> n in last.tables)
    ensures forall n :: n in OWN && n in first.tables ==> first.tables[n].schema == last.tables[n].schema
    ensures Linked(first) && Linked(last) && first.macro == last.macro && first.index == last.index && first.holder == last.holder
  {
    hide Untouched;
  }

  // ------------------------------------------------------------------ user tables with generated names

  /** The tables a script drops by name. */
  ghost function Dropped(ss: seq<Stmt>): set<Name> {
    if ss == [] then {} else Dropped(ss[1..]) + (if ss[0].DropIfExists? || ss[0].DropTable? then {ss[0].name} else {})
  }

  /** A script takes exactly the user tables whose names it drops. */
  lemma {:induction false} RunTakes(c: Catalog, ss: seq<Stmt>)
    requires Run(c, ss).Some?
    ensures Run(c, ss).value.regular == c.regular - Dropped(ss)
    decreases |ss|
  {
    hide Created;
    if ss != [] {
      RunTakes(Exec(c, ss[0]).value, ss[1..]);
    }
  }

  lemma {:induction false} RunFarTakes(c: Catalog, ss: seq<Stmt>)
    requires c.regular !! Dropped(ss)
    ensures RunFar(c, ss).regular == c.regular
    decreases |ss|
  {
    hide Created;
    if ss != [] && Exec(c, ss[0]).Some? {
      RunFarTakes(Exec(c, ss[0]).value, ss[1..]);
    }
  }

  lemma {:induction false} DroppedConcat(a: seq<Stmt>, b: seq<Stmt>)
    ensures Dropped(a + b) == Dropped(a) + Dropped(b)
  {
    if a == [] {
      assert a + b == b;
    } else {
      assert (a + b)[1..] == a[1..] + b;
      DroppedConcat(a[1..], b);
    }
  }

  lemma {:induction false} DroppedDrops(ns: seq<Name>)
    ensures forall n :: n in Dropped(DropsIfExist(ns)) <==> n in ns
  {
    if ns != [] {
      DroppedDrops(ns[1..]);
      assert DropsIfExist(ns)[1..] == DropsIfExist(ns[1..]);
    }
  }

  lemma {:induction false} ResidueSpares(c: Catalog, ns: seq<Name>)
    requires ResidueDrops(c, ns).Some?
    ensures (forall n :: n in Dropped(ResidueDrops(c, ns).value) ==> n in ns) && forall x :: 0 <= x < |ns| ==> ns[x] !in c.regular
    decreases |ns|
  {
    if ns != [] {
      ResidueSpares(c, ns[1..]);
      var rest := ResidueDrops(c, ns[1..]).value;
      assert ([DropIfExists(ns[0])] + rest)[1..] == rest;
      assert forall x :: 0 < x < |ns| ==> ns[x] == ns[1..][x - 1];
    }
  }

  lemma {:induction false} CopiesDropNothing(numProps: nat)
    ensures Dropped(Copies(numProps)) == {}
  {
    if numProps > 0 {
      CopiesDropNothing(numProps - 1);
      DroppedConcat(Copies(numProps - 1), [Fill(AppearsInfo)]);
      assert [Fill(AppearsInfo)][1..] == [];
    }
  }

  lemma BuildDrops(custom: bool, numProps: nat)
    ensures Dropped(BuildScript(custom, numProps)) == {AppearsInfo}
  {
    var a, b, e := StopScript(custom), [CreateNode(AppearsInfo)], Copies(numProps);
    var f := [CreateNode(Docs), Fill(Docs), CreateNode(Terms), Fill(Terms), CreateRel, Fill(AppearsIn), DropTable(AppearsInfo)];
    var g := [CreateIndex, Answer];
    CopiesDropNothing(numProps);
    hide Copies;
    DroppedConcat(a + b + e + f, g);
    DroppedConcat(a + b + e, f);
    DroppedConcat(a + b, e);
    DroppedConcat(a, b);
    DroppedPairs(a);
    DroppedPairs(g);
    assert b[1..] == [];
    DroppedList(f);
  }

  lemma DroppedPairs(a: seq<Stmt>)
    requires |a| == 2 && !a[0].DropIfExists? && !a[0].DropTable? && !a[1].DropIfExists? && !a[1].DropTable?
    ensures Dropped(a) == {}
  {
    var t := a[1..];
    assert t[0] == a[1] && t[1..] == [];
    assert Dropped(t) == {};
  }

  lemma DroppedList(f: seq<Stmt>)
    requires f == [CreateNode(Docs), Fill(Docs), CreateNode(Terms), Fill(Terms), CreateRel, Fill(AppearsIn), DropTable(AppearsInfo)]
    ensures Dropped(f) == {AppearsInfo}
  {
    var a, b, g, h := f[..2], f[2..4], f[4..6], f[6..];
    assert f == a + b + g + h;
    DroppedConcat(a + b + g, h);
    DroppedConcat(a + b, g);
    DroppedConcat(a, b);
    DroppedPairs(a);
    DroppedPairs(b);
    DroppedPairs(g);
    assert h[1..] == [];
  }

  lemma {:induction false} DroppedPrefix(ss: seq<Stmt>, k: nat)
    requires k <= |ss|
    ensures Dropped(ss[..k]) <= Dropped(ss)
  {
    assert ss == ss[..k] + ss[k..];
    DroppedConcat(ss[..k], ss[k..]);
  }

  /** CREATE drops by name only tables of its own, none of which the user has. */
  lemma CreateDrops(c: Catalog, custom: bool, numProps: nat)
    requires CreateScript(c, custom, numProps).Some?
    ensures c.regular !! Dropped(CreateScript(c, custom, numProps).value) && Free(c, custom)
  {
    hide ResidueDrops, BuildScript;
    ResidueSpares(c, OwnTables(custom));
    var a, m, b := ResidueDrops(c, OwnTables(custom)).value, MacroScript(c), BuildScript(custom, numProps);
    DroppedConcat(a + m, b);
    DroppedConcat(a, m);
    MacroDropsNothing(c);
    BuildDrops(custom, numProps);
    assert OwnTables(custom)[1] == AppearsInfo;
  }

  lemma MacroDropsNothing(c: Catalog)
    ensures Dropped(MacroScript(c)) == {}
  {
    if c.macro {
      DroppedPairs([DropMacro] + [CreateMacro]);
    } else {
      assert MacroScript(c) == [CreateMacro] && [CreateMacro][1..] == [];
    }
  }

  /** Even if user tables have the generated names, CREATE, cut off anywhere, never drops one: it refuses
      before it runs anything. */
  lemma CreateSparesUserTables(c: Catalog, custom: bool, numProps: nat, k: nat)
    ensures After(c, CreateCut(k), custom, numProps).regular == c.regular
  {
    hide Run, Exec;
    var script := CreateScript(c, custom, numProps);
    if script.Some? {
      CreateDrops(c, custom, numProps);
      var n := if k < |script.value| then k else |script.value|;
      DroppedPrefix(script.value, n);
      assert script.value[..|script.value|] == script.value;
      RunFarTakes(c, script.value[..n]);
    }
  }

  lemma DropDrops(c: Catalog, custom: bool)
    requires c.index
    ensures forall n :: n in Dropped(DropScript(c, custom).value) <==> n in OwnTables(custom)
  {
    var a, b := [DropIndex], DropsIfExist(OwnTables(custom));
    var m := if c.macro then [DropMacro] else [];
    DroppedConcat(a + b + m, [Answer]);
    DroppedConcat(a + b, m);
    DroppedConcat(a, b);
    DroppedDrops(OwnTables(custom));
    assert a[1..] == [] && [Answer][1..] == [] && [DropMacro][1..] == [];
  }

  /** DROP, cut off anywhere, keeps the user tables exactly if none has a name it got to. */
  lemma DropSparesIff(c: Catalog, custom: bool, k: nat)
    requires c.index && k <= |DropScript(c, custom).value| && Run(c, DropScript(c, custom).value[..k]).Some?
    ensures Run(c, DropScript(c, custom).value[..k]).value.regular == c.regular <==>
            c.regular !! Dropped(DropScript(c, custom).value[..k])
  {
    RunTakes(c, DropScript(c, custom).value[..k]);
  }

  /** A whole DROP keeps them exactly if none has a name of the index. */
  lemma WholeDropSparesIff(c: Catalog, custom: bool)
    requires c.index && Run(c, DropScript(c, custom).value).Some?
    ensures Run(c, DropScript(c, custom).value).value.regular == c.regular <==> Free(c, custom)
  {
    hide Run;
    RunTakes(c, DropScript(c, custom).value);
    DropDrops(c, custom);
    hide Dropped;
    if !Free(c, custom) {
      var x :| 0 <= x < |OwnTables(custom)| && OwnTables(custom)[x] in c.regular;
      assert OwnTables(custom)[x] in Dropped(DropScript(c, custom).value);
    }
  }

  lemma AttemptSpares(c: Catalog, a: Attempt, custom: bool, numProps: nat)
    requires Free(c, custom)
    ensures After(c, a, custom, numProps).regular == c.regular
  {
    hide RunFar, DropScript, CreateScript;
    match a {
      case CreateCut(k) => CreateSparesUserTables(c, custom, numProps, k);
      case DropCut(k) =>
        var script := DropScript(c, custom);
        if script.Some? {
          DropNeedsIndex(c, custom);
          DropDrops(c, custom);
          var n := if k < |script.value| then k else |script.value|;
          DroppedPrefix(script.value, n);
          assert script.value[..|script.value|] == script.value;
          RunFarTakes(c, script.value[..n]);
        }
      case TornDrop =>
    }
  }

  lemma DropNeedsIndex(c: Catalog, custom: bool)
    requires DropScript(c, custom).Some?
    ensures c.index
  {
  }

  // ------------------------------------------------------------------ when DROP gets to its end

  /** A drop succeeds unless the relationship table still refers to the internal table it means. */
  lemma DropStep(c: Catalog, n: Name)
    requires Inv(c) && n in OWN
    ensures Exec(c, DropIfExists(n)).None? <==> n !in c.regular && n in c.tables && n in {Docs, Terms} && AppearsIn in c.tables
    ensures Exec(c, DropIfExists(n)).Some? ==>
              Exec(c, DropIfExists(n)).value == if n in c.regular then c.(regular := c.regular - {n}) else Removed(c, n)
  {
    if n !in c.tables {
      RemoveAbsent(c, n);
    }
  }

  /** What is left to drop: a user table of the relationship table's name hides it. */
  ghost predicate Stops(c: Catalog, ns: seq<Name>) {
    AppearsIn in c.tables && exists x :: 0 <= x < |ns| && ns[x] in {Docs, Terms} && ns[x] !in c.regular
  }

  /** Once the relationship table is past, drops fail exactly if it is still there and a table it connects is
      to be dropped. */
  lemma {:induction false} DropsEnd(c: Catalog, ns: seq<Name>)
    requires Inv(c) && (forall x :: 0 <= x < |ns| ==> ns[x] in OWN && ns[x] != AppearsIn)
    requires forall x, y :: 0 <= x < y < |ns| ==> ns[x] != ns[y]
    ensures Run(c, DropsIfExist(ns)).None? <==> Stops(c, ns)
    ensures Run(c, DropsIfExist(ns)).Some? ==> Run(c, DropsIfExist(ns)).value.macro == c.macro
    decreases |ns|
  {
    if ns != [] {
      var n := ns[0];
      assert DropsIfExist(ns)[1..] == DropsIfExist(ns[1..]);
      DropStep(c, n);
      var d := Exec(c, DropIfExists(n));
      if d.Some? {
        ExecKeeps(c, DropIfExists(n), true);
        DropsEnd(d.value, ns[1..]);
        assert forall x :: 0 < x < |ns| ==> ns[1..][x - 1] == ns[x];
        StopsNext(c, d.value, ns);
      } else {
        assert AppearsIn in c.tables && ns[0] in {Docs, Terms} && ns[0] !in c.regular;
      }
    }
  }

  lemma StopsNext(c: Catalog, d: Catalog, ns: seq<Name>)
    requires ns != [] && ns[0] != AppearsIn && (forall x, y :: 0 <= x < y < |ns| ==> ns[x] != ns[y])
    requires d.regular - {ns[0]} == c.regular - {ns[0]} && (AppearsIn in d.tables <==> AppearsIn in c.tables)
    requires AppearsIn in c.tables && ns[0] in {Docs, Terms} ==> ns[0] in c.regular
    ensures Stops(d, ns[1..]) <==> Stops(c, ns)
  {
    if Stops(c, ns) {
      var x :| 0 <= x < |ns| && ns[x] in {Docs, Terms} && ns[x] !in c.regular;
      assert x > 0 && ns[1..][x - 1] == ns[x];
      assert ns[x] !in c.regular - {ns[0]};
    }
    if Stops(d, ns[1..]) {
      var x :| 0 <= x < |ns[1..]| && ns[1..][x] in {Docs, Terms} && ns[1..][x] !in d.regular;
      assert ns[x + 1] == ns[1..][x] && ns[x + 1] !in d.regular - {ns[0]};
    }
  }

  lemma RestOfOwn(custom: bool)
    ensures var rest := OwnTables(custom)[1..];
            && (forall x :: 0 <= x < |rest| ==> rest[x] in OWN && rest[x] != AppearsIn)
            && (forall x, y :: 0 <= x < y < |rest| ==> rest[x] != rest[y])
            && rest[1] == Docs && rest[2] == Terms
  {
    var rest := OwnTables(custom)[1..];
    assert rest[0] == AppearsInfo && rest[1] == Docs && rest[2] == Terms && (custom ==> rest[3] == StopCopy);
  }

  lemma StopsIff(c: Catalog, custom: bool)
    ensures Stops(c, OwnTables(custom)[1..]) <==> AppearsIn in c.tables && !({Docs, Terms} <= c.regular)
  {
    RestOfOwn(custom);
  }

  /** DROP gets to its end exactly unless a user table hides the relationship table and leaves one of the
      tables it connects in sight. */
  lemma DropEndsIff(c: Catalog, custom: bool)
    requires Inv(c) && c.index
    ensures Run(c, DropScript(c, custom).value).Some? <==>
            !(AppearsIn in c.regular && AppearsIn in c.tables && !({Docs, Terms} <= c.regular))
  {
    hide Inv, Run, Exec, DropsIfExist, Stops;
    var c1 := c.(index := false, holder := false);
    FlagsKeep(c, c1);
    DropStep(c1, AppearsIn);
    var c2 := Exec(c1, DropIfExists(AppearsIn)).value;
    ExecKeeps(c1, DropIfExists(AppearsIn), true);
    RestOfOwn(custom);
    DropsEnd(c2, OwnTables(custom)[1..]);
    StopsIff(c2, custom);
    TailOfDrop(c, custom, c2);
  }

  lemma {:induction false} DropsRemove(c: Catalog, ns: seq<Name>)
    requires Inv(c) && InOrder(c, ns) && forall x :: 0 <= x < |ns| ==> ns[x] !in c.regular
    ensures Run(c, DropsIfExist(ns)) == Some(Without(c, ns))
    decreases |ns|
  {
    if ns != [] {
      var n, d := ns[0], Removed(c, ns[0]);
      hide Exec;
      DropStep(c, n);
      RemoveKeeps(c, n);
      assert DropsIfExist(ns)[1..] == DropsIfExist(ns[1..]);
      DropsRemove(d, ns[1..]);
    }
  }

  /** Without a user table of such a name, a whole DROP leaves nothing of the index and everything else as it was. */
  lemma DropLeavesNothing(c: Catalog, custom: bool) returns (d: Catalog)
    requires Inv(c) && c.index && Free(c, custom)
    ensures Run(c, DropScript(c, custom).value) == Some(d)
    ensures !d.index && !d.holder && !d.macro && d.regular == c.regular && d.nextId == c.nextId
    ensures forall n :: n in d.tables <==> n in c.tables && n !in OwnTables(custom)
    ensures forall n :: n in d.tables ==> d.tables[n] == c.tables[n]
  {
    var c1 := c.(index := false, holder := false);
    FlagsKeep(c, c1);
    OwnInOrder(c1, custom);
    hide Inv, InOrder, Run, DropsIfExist, Without;
    DropsRemove(c1, OwnTables(custom));
    WithoutIs(c1, OwnTables(custom));
    d := Without(c1, OwnTables(custom)).(macro := false);
    DropRuns(c, c1, custom);
  }

  lemma DropRuns(c: Catalog, c1: Catalog, custom: bool)
    requires c.index && c1 == c.(index := false, holder := false) && Run(c1, DropsIfExist(OwnTables(custom))).Some?
    requires Run(c1, DropsIfExist(OwnTables(custom))).value.macro == c.macro
    ensures Run(c, DropScript(c, custom).value) == Some(Run(c1, DropsIfExist(OwnTables(custom))).value.(macro := false))
  {
    var b := DropsIfExist(OwnTables(custom));
    var m := if c.macro then [DropMacro] else [];
    var script, d := DropScript(c, custom).value, Run(c1, b).value;
    assert script == [DropIndex] + (b + (m + [Answer]));
    assert script[1..] == b + (m + [Answer]);
    assert Exec(c, DropIndex) == Some(c1);
    RunSplit(c1, b, m + [Answer]);
    assert [Answer][1..] == [];
    if c.macro {
      var tail := [DropMacro, Answer];
      assert m + [Answer] == tail && tail[1..] == [Answer];
    } else {
      assert m + [Answer] == [Answer];
    }
  }

  /** The statements after the drops always succeed. */
  lemma TailOfDrop(c: Catalog, custom: bool, c2: Catalog)
    requires c.index && Exec(c.(index := false, holder := false), DropIfExists(AppearsIn)) == Some(c2) && c2.macro == c.macro
    requires var r := Run(c2, DropsIfExist(OwnTables(custom)[1..])); r.Some? ==> r.value.macro == c.macro
    ensures Run(c, DropScript(c, custom).value).Some? <==> Run(c2, DropsIfExist(OwnTables(custom)[1..])).Some?
  {
    var b := DropsIfExist(OwnTables(custom)[1..]);
    var m := if c.macro then [DropMacro] else [];
    var script := DropScript(c, custom).value;
    var c1 := c.(index := false, holder := false);
    assert script == [DropIndex] + ([DropIfExists(AppearsIn)] + (b + (m + [Answer])));
    assert script[1..] == [DropIfExists(AppearsIn)] + (b + (m + [Answer])) && script[1..][1..] == b + (m + [Answer]);
    assert Exec(c, DropIndex) == Some(c1);
    assert Run(c, script) == Run(c1, script[1..]) == Run(c2, b + (m + [Answer]));
    RunSplit(c2, b, m + [Answer]);
    if Run(c2, b).Some? {
      MacroTail(Run(c2, b).value, m);
    }
  }

  lemma MacroTail(c: Catalog, m: seq<Stmt>)
    requires m == if c.macro then [DropMacro] else []
    ensures Run(c, m + [Answer]).Some?
  {
    var t := m + [Answer];
    if c.macro {
      assert t[0] == DropMacro && t[1..] == [Answer] && [Answer][1..] == [];
    } else {
      assert t == [Answer] && t[1..] == [];
    }
  }

  lemma {:induction false} RunSplit(c: Catalog, a: seq<Stmt>, b: seq<Stmt>)
    ensures Run(c, a + b) == if Run(c, a).None? then None else Run(Run(c, a).value, b)
    decreases |a|
  {
    hide Exec;
    if a == [] {
      assert a + b == b;
    } else {
      assert (a + b)[1..] == a[1..] + b;
      if Exec(c, a[0]).Some? {
        RunSplit(Exec(c, a[0]).value, a[1..], b);
      }
    }
  }

  // ------------------------------------------------------------------ an example

  ghost function Clash(): Catalog {
    Catalog({Terms}, map[Terms := Entry(Created(Terms), 0, 0, 0), Docs := Entry(Created(Docs), 1, 0, 0),
                         AppearsIn := Entry(Created(AppearsIn), 2, 0, 1)], false, true, true, 3)
  }

  lemma ClashIsReachable()
    ensures Inv(Clash()) && Clash().index
  {
    hide Created;
  }

  /** A user table with the name of the terms table: DROP takes it, and leaves the index's own. */
  lemma DropTakesUserTable() returns (d: Catalog)
    ensures Inv(Clash()) && Clash().index && Clash().regular == {Terms}
    ensures Run(Clash(), DropScript(Clash(), false).value) == Some(d) && d.regular == {} && Terms in d.tables
  {
    hide Created, Inv, Exec, Run, DropScript;
    ClashIsReachable();
    var c := Clash();
    var c1 := c.(index := false, holder := false);
    var c2 := Removed(c1, AppearsIn);
    var c3 := Removed(c2, Docs);
    d := c3.(regular := {});
    var ss := [DropIndex, DropIfExists(AppearsIn), DropIfExists(AppearsInfo), DropIfExists(Docs), DropIfExists(Terms), Answer];
    ClashScript(ss);
    ClashSteps(c1, c2, c3, d);
    SixSteps(c, c1, c2, c2, c3, d, d, ss);
  }

  lemma ClashScript(ss: seq<Stmt>)
    requires ss == [DropIndex, DropIfExists(AppearsIn), DropIfExists(AppearsInfo), DropIfExists(Docs), DropIfExists(Terms), Answer]
    ensures DropScript(Clash(), false) == Some(ss)
  {
    var ns := [AppearsIn, AppearsInfo, Docs, Terms];
    assert OwnTables(false) == ns;
    assert ns[1..] == [AppearsInfo, Docs, Terms] && ns[1..][1..] == [Docs, Terms] && ns[1..][1..][1..] == [Terms];
    assert [Terms][1..] == [];
    assert DropsIfExist([Terms]) == [DropIfExists(Terms)];
    var drops := DropsIfExist(ns);
    assert drops == [DropIfExists(AppearsIn), DropIfExists(AppearsInfo), DropIfExists(Docs), DropIfExists(Terms)];
    var none: seq<Stmt> := [];
    assert [DropIndex] + drops + none + [Answer] == ss;
  }

  lemma ClashSteps(c1: Catalog, c2: Catalog, c3: Catalog, d: Catalog)
    requires c1 == Clash().(index := false, holder := false) && c2 == Removed(c1, AppearsIn) && c3 == Removed(c2, Docs) && d == c3.(regular := {})
    ensures Exec(Clash(), DropIndex) == Some(c1) && Exec(c1, DropIfExists(AppearsIn)) == Some(c2)
    ensures Exec(c2, DropIfExists(AppearsInfo)) == Some(c2) && Exec(c2, DropIfExists(Docs)) == Some(c3)
    ensures Exec(c3, DropIfExists(Terms)) == Some(d) && Exec(d, Answer) == Some(d) && Terms in d.tables
  {
    hide Created;
    assert c3.regular - {Terms} == {};
  }

  lemma SixSteps(c: Catalog, c1: Catalog, c2: Catalog, c3: Catalog, c4: Catalog, c5: Catalog, d: Catalog, ss: seq<Stmt>)
    requires |ss| == 6 && Exec(c, ss[0]) == Some(c1) && Exec(c1, ss[1]) == Some(c2) && Exec(c2, ss[2]) == Some(c3)
    requires Exec(c3, ss[3]) == Some(c4) && Exec(c4, ss[4]) == Some(c5) && Exec(c5, ss[5]) == Some(d)
    ensures Run(c, ss) == Some(d)
  {
    hide Exec;
    assert Run(c5, ss[5..]) == Some(d) by { assert ss[5..][1..] == []; }
    assert Run(c4, ss[4..]) == Some(d) by { assert ss[4..][1..] == ss[5..]; }
    assert Run(c3, ss[3..]) == Some(d) by { assert ss[3..][1..] == ss[4..]; }
    assert Run(c2, ss[2..]) == Some(d) by { assert ss[2..][1..] == ss[3..]; }
    assert Run(c1, ss[1..]) == Some(d) by { assert ss[1..][1..] == ss[2..]; }
  }
}
