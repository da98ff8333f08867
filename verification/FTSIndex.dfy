/** The three tables of a full-text index and their maintenance by insert, delete and update
    (fts/src/index/fts_index.cpp). Normalising, tokenizing, stop words and stemming are one function from a
    row's text to its terms. */
module FullText {
  import opened Basics
  import opened FTSStats

  // ------------------------------------------------------------------ tables

  /** A row of the doc table, under the node offset it belongs to. */
  datatype DocRow = DocRow(id: nat, len: nat)

  /** A row of the terms table, under its term. */
  datatype TermRow = TermRow(id: nat, df: nat)

  /** A row of the appears-in table. */
  datatype Rel = Rel(term: nat, doc: nat, tf: nat)

  type DocTable = map<nat, DocRow>
  type TermTable = map<string, TermRow>

  /** The terms of every indexed row that has any. */
  type Corpus = map<nat, seq<string>>

  datatype Error = DocumentMissing | TermMissing
  datatype Outcome = Ok | Err(error: Error)

  ghost function Holders(d: Corpus, t: string): set<nat> {
    set o | o in d && t in d[o]
  }

  ghost function TermSet(ts: seq<string>): set<string> {
    set t | t in ts
  }

  ghost function TF(ts: seq<string>, t: string): nat {
    multiset(ts)[t]
  }

  // ------------------------------------------------------------------ what a rebuild would give

  ghost predicate DocsOk(docs: DocTable, next: nat, d: Corpus) {
    && docs.Keys == d.Keys
    && (forall o :: o in docs ==> docs[o].len == |d[o]| && docs[o].id < next)
    && (forall o, p :: o in docs && p in docs && docs[o].id == docs[p].id ==> o == p)
  }

  /** df counts the documents that hold the term; a term no document holds has no row. */
  ghost predicate TermsOk(terms: TermTable, next: nat, d: Corpus) {
    && (forall t :: t in terms <==> Holders(d, t) != {})
    && (forall t :: t in terms ==> terms[t].df == |Holders(d, t)|)
    && TermIds(terms, next)
  }

  ghost predicate TermIds(terms: TermTable, next: nat) {
    && (forall t :: t in terms ==> terms[t].id < next)
    && (forall t, u :: t in terms && u in terms && terms[t].id == terms[u].id ==> t == u)
  }

  ghost predicate RelFor(docs: DocTable, terms: TermTable, d: Corpus, r: Rel, o: nat, t: string) {
    o in d && t in d[o] && o in docs && t in terms && r == Rel(terms[t].id, docs[o].id, TF(d[o], t))
  }

  ghost predicate IsRel(docs: DocTable, terms: TermTable, d: Corpus, r: Rel) {
    exists o, t :: RelFor(docs, terms, d, r, o, t)
  }

  /** One row per document and term in it, with the number of occurrences. */
  ghost predicate RelsOk(docs: DocTable, terms: TermTable, rels: seq<Rel>, d: Corpus) {
    NoRepeats(rels) && forall r :: r in rels <==> IsRel(docs, terms, d, r)
  }

  // ------------------------------------------------------------------ terms of a document

  /** Number of occurrences per term. */
  method CountTerms(ts: seq<string>) returns (infos: map<string, nat>)
    ensures infos.Keys == TermSet(ts) && forall t :: t in infos ==> infos[t] == TF(ts, t)
  {
    infos := map[];
    for i := 0 to |ts|
      invariant forall t :: t in infos <==> t in ts[..i]
      invariant forall t :: t in infos ==> infos[t] == TF(ts[..i], t)
    {
      assert ts[..i + 1] == ts[..i] + [ts[i]];
      var t := ts[i];
      infos := infos[t := (if t in infos then infos[t] else 0) + 1];
    }
    assert ts[..|ts|] == ts;
  }

  /** Adding one document changes the holders of its own terms only. */
  lemma HoldersAdd(d: Corpus, o: nat, ts: seq<string>, t: string)
    requires o !in d
    ensures Holders(d[o := ts], t) == if t in ts then Holders(d, t) + {o} else Holders(d, t)
    ensures o !in Holders(d, t)
  {
  }

  lemma HoldersRemove(d: Corpus, o: nat, t: string)
    requires o in d
    ensures Holders(d - {o}, t) == Holders(d, t) - {o}
    ensures o in Holders(d, t) <==> t in d[o]
  {
  }

  /** b is a with every term of keys counted once more. */
  ghost predicate TermsAdded(a: TermTable, n: nat, b: TermTable, m: nat, keys: set<string>) {
    && n <= m && b.Keys == a.Keys + keys
    && (forall t :: t in b ==> b[t].df == (if t in a then a[t].df else 0) + (if t in keys then 1 else 0))
    && (forall t :: t in a && t in b ==> b[t].id == a[t].id)
    && TermIds(b, m)
  }

  lemma TermsAddedOk(a: TermTable, n: nat, b: TermTable, m: nat, d: Corpus, o: nat, ts: seq<string>)
    requires TermsOk(a, n, d) && o !in d && TermsAdded(a, n, b, m, TermSet(ts))
    ensures TermsOk(b, m, d[o := ts])
  {
    hide Holders;
    forall t
      ensures t in b <==> Holders(d[o := ts], t) != {}
      ensures t in b ==> b[t].df == |Holders(d[o := ts], t)|
    {
      HoldersAdd(d, o, ts, t);
      assert t in TermSet(ts) <==> t in ts;
    }
  }

  /** b is a with every term of keys counted once less, and without those counted no more. */
  ghost predicate TermsRemoved(a: TermTable, b: TermTable, keys: set<string>) {
    && (forall t :: t in b <==> t in a && !(t in keys && a[t].df == 1))
    && (forall t :: t in b && t in a ==> b[t] == TermRow(a[t].id, a[t].df - (if t in keys && a[t].df > 1 then 1 else 0)))
  }

  lemma TermsRemovedOk(a: TermTable, b: TermTable, n: nat, d: Corpus, o: nat)
    requires TermsOk(a, n, d) && o in d && TermsRemoved(a, b, TermSet(d[o]))
    ensures TermsOk(b, n, d - {o})
  {
    hide Holders, TermIds;
    forall t
      ensures t in b <==> Holders(d - {o}, t) != {}
      ensures t in b ==> b[t].df == |Holders(d - {o}, t)|
    {
      HoldersRemove(d, o, t);
      assert t in TermSet(d[o]) <==> t in d[o];
      var h := Holders(d, t);
      assert if o in h then h == (h - {o}) + {o} else h - {o} == h;
    }
    assert TermIds(b, n) by { IdsShrink(a, b, n); }
  }

  lemma IdsShrink(a: TermTable, b: TermTable, n: nat)
    requires TermIds(a, n) && forall t :: t in b ==> t in a && b[t].id == a[t].id
    ensures TermIds(b, n)
  {
  }

  // ------------------------------------------------------------------ the appears-in table

  /** The new rows for a document. */
  ghost predicate NewRels(terms: TermTable, ts: seq<string>, doc: nat, more: seq<Rel>) {
    && NoRepeats(more)
    && forall r :: r in more <==> exists t :: t in ts && t in terms && r == Rel(terms[t].id, doc, TF(ts, t))
  }

  /** A row of the old tables is one of the new tables, for the same document and term. */
  lemma RelKept(docs: DocTable, docs': DocTable, a: TermTable, b: TermTable, d: Corpus, d': Corpus, r: Rel, o: nat, t: string)
    requires RelFor(docs, a, d, r, o, t) && o in docs' && o in d' && t in b
    requires docs'[o] == docs[o] && d'[o] == d[o] && b[t].id == a[t].id
    ensures RelFor(docs', b, d', r, o, t)
  {
  }

  lemma RelsAdd(docs: DocTable, nextDoc: nat, a: TermTable, n: nat, b: TermTable, m: nat, rels: seq<Rel>, more: seq<Rel>,
                d: Corpus, o: nat, ts: seq<string>)
    requires DocsOk(docs, nextDoc, d) && TermsOk(a, n, d) && RelsOk(docs, a, rels, d) && o !in d
    requires TermsAdded(a, n, b, m, TermSet(ts)) && NewRels(b, ts, nextDoc, more)
    ensures RelsOk(docs[o := DocRow(nextDoc, |ts|)], b, rels + more, d[o := ts])
  {
    hide NoRepeats, IsRel;
    var docs', d' := docs[o := DocRow(nextDoc, |ts|)], d[o := ts];
    forall r
      ensures r in rels + more <==> IsRel(docs', b, d', r)
    {
      RelsAddOne(docs, nextDoc, a, n, b, m, d, o, ts, r);
    }
    OldRelsApart(docs, nextDoc, a, rels, d);
    ApartNoRepeats(rels, more, nextDoc);
  }

  lemma RelsAddOne(docs: DocTable, nextDoc: nat, a: TermTable, n: nat, b: TermTable, m: nat, d: Corpus, o: nat, ts: seq<string>, r: Rel)
    requires DocsOk(docs, nextDoc, d) && TermsOk(a, n, d) && o !in d && TermsAdded(a, n, b, m, TermSet(ts))
    ensures IsRel(docs[o := DocRow(nextDoc, |ts|)], b, d[o := ts], r) <==>
            IsRel(docs, a, d, r) || exists t :: t in ts && t in b && r == Rel(b[t].id, nextDoc, TF(ts, t))
  {
    hide TF, TermIds;
    var docs', d' := docs[o := DocRow(nextDoc, |ts|)], d[o := ts];
    if IsRel(docs, a, d, r) {
      var p, t :| RelFor(docs, a, d, r, p, t);
      RelKept(docs, docs', a, b, d, d', r, p, t);
    }
    if t :| t in ts && t in b && r == Rel(b[t].id, nextDoc, TF(ts, t)) {
      assert RelFor(docs', b, d', r, o, t);
    }
    if IsRel(docs', b, d', r) {
      var p, t :| RelFor(docs', b, d', r, p, t);
      if p != o {
        assert p in Holders(d, t);
        RelKept(docs', docs, b, a, d', d, r, p, t);
      }
    }
  }

  lemma OldRelsApart(docs: DocTable, nextDoc: nat, a: TermTable, rels: seq<Rel>, d: Corpus)
    requires DocsOk(docs, nextDoc, d) && RelsOk(docs, a, rels, d)
    ensures forall r :: r in rels ==> r.doc < nextDoc
  {
    forall r | r in rels
      ensures r.doc < nextDoc
    {
      var p, t :| RelFor(docs, a, d, r, p, t);
    }
  }

  lemma ApartNoRepeats(rels: seq<Rel>, more: seq<Rel>, doc: nat)
    requires NoRepeats(rels) && NoRepeats(more)
    requires (forall r :: r in rels ==> r.doc < doc) && (forall r :: r in more ==> r.doc == doc)
    ensures NoRepeats(rels + more)
  {
    var all := rels + more;
    forall i, j | 0 <= i < j < |all|
      ensures all[i] != all[j]
    {
      if i < |rels| <= j {
        assert all[i] in rels && all[j] in more;
      }
    }
  }

  /** The rows left when a document's rows are removed. */
  function WithoutDoc(rels: seq<Rel>, doc: nat): (r: seq<Rel>)
    ensures forall x :: x in r <==> x in rels && x.doc != doc
  {
    if rels == [] then []
    else
      var rest := WithoutDoc(rels[..|rels| - 1], doc);
      var last := rels[|rels| - 1];
      assert rels == rels[..|rels| - 1] + [last];
      if last.doc == doc then rest else rest + [last]
  }

  lemma {:induction false} WithoutNoRepeats(rels: seq<Rel>, doc: nat)
    requires NoRepeats(rels)
    ensures NoRepeats(WithoutDoc(rels, doc))
  {
    if rels != [] {
      var rest, last := rels[..|rels| - 1], rels[|rels| - 1];
      WithoutNoRepeats(rest, doc);
      assert last !in WithoutDoc(rest, doc);
    }
  }

  lemma RelsRemove(docs: DocTable, nextDoc: nat, a: TermTable, n: nat, b: TermTable, rels: seq<Rel>, d: Corpus, o: nat)
    requires DocsOk(docs, nextDoc, d) && TermsOk(a, n, d) && RelsOk(docs, a, rels, d) && o in d
    requires TermsRemoved(a, b, TermSet(d[o]))
    ensures RelsOk(docs - {o}, b, WithoutDoc(rels, docs[o].id), d - {o})
  {
    hide NoRepeats, IsRel, TermsRemoved, TermsOk;
    WithoutNoRepeats(rels, docs[o].id);
    TermsRemovedOk(a, b, n, d, o);
    forall r
      ensures IsRel(docs - {o}, b, d - {o}, r) <==> IsRel(docs, a, d, r) && r.doc != docs[o].id
    {
      RelsRemoveOne(docs, nextDoc, a, n, b, d, o, r);
    }
  }

  lemma HeldTerm(terms: TermTable, n: nat, d: Corpus, o: nat, t: string)
    requires TermsOk(terms, n, d) && o in d && t in d[o]
    ensures t in terms
  {
    assert o in Holders(d, t);
  }

  lemma RelsRemoveOne(docs: DocTable, nextDoc: nat, a: TermTable, n: nat, b: TermTable, d: Corpus, o: nat, r: Rel)
    requires DocsOk(docs, nextDoc, d) && TermsOk(a, n, d) && TermsOk(b, n, d - {o}) && o in d
    requires TermsRemoved(a, b, TermSet(d[o]))
    ensures IsRel(docs - {o}, b, d - {o}, r) <==> IsRel(docs, a, d, r) && r.doc != docs[o].id
  {
    hide TF, TermsOk, TermSet, TermsRemoved, DocsOk;
    var docs', d' := docs - {o}, d - {o};
    DocsHaveRows(docs, nextDoc, d);
    if IsRel(docs, a, d, r) && r.doc != docs[o].id {
      var p, t :| RelFor(docs, a, d, r, p, t);
      HeldTerm(b, n, d', p, t);
      SameId(a, b, TermSet(d[o]), t);
      RelKept(docs, docs', a, b, d, d', r, p, t);
    }
    if IsRel(docs', b, d', r) {
      var p, t :| RelFor(docs', b, d', r, p, t);
      SameId(a, b, TermSet(d[o]), t);
      RelKept(docs', docs, b, a, d', d, r, p, t);
      DistinctIds(docs, nextDoc, d, p, o);
    }
  }

  lemma DocsHaveRows(docs: DocTable, nextDoc: nat, d: Corpus)
    requires DocsOk(docs, nextDoc, d)
    ensures docs.Keys == d.Keys
  {
  }

  lemma DistinctIds(docs: DocTable, nextDoc: nat, d: Corpus, o: nat, p: nat)
    requires DocsOk(docs, nextDoc, d) && o in docs && p in docs && o != p
    ensures docs[o].id != docs[p].id
  {
  }

  lemma SameId(a: TermTable, b: TermTable, keys: set<string>, t: string)
    requires TermsRemoved(a, b, keys) && t in b
    ensures t in a && a[t].id == b[t].id
  {
  }

  // ------------------------------------------------------------------ the rebuilt tables are determined

  /** The tables record tf occurrences of term t in the document of node o. */
  ghost predicate Shows(docs: DocTable, terms: TermTable, rels: seq<Rel>, o: nat, t: string, tf: nat) {
    o in docs && t in terms && Rel(terms[t].id, docs[o].id, tf) in rels
  }

  lemma ShowsExactly(docs: DocTable, nd: nat, terms: TermTable, nt: nat, rels: seq<Rel>, d: Corpus, o: nat, t: string, tf: nat)
    requires DocsOk(docs, nd, d) && TermsOk(terms, nt, d) && RelsOk(docs, terms, rels, d)
    ensures Shows(docs, terms, rels, o, t, tf) <==> o in d && t in d[o] && tf == TF(d[o], t)
  {
    hide TF;
    if Shows(docs, terms, rels, o, t, tf) {
      var p, u :| RelFor(docs, terms, d, Rel(terms[t].id, docs[o].id, tf), p, u);
    }
    if o in d && t in d[o] && tf == TF(d[o], t) {
      assert o in Holders(d, t);
      assert RelFor(docs, terms, d, Rel(terms[t].id, docs[o].id, tf), o, t);
    }
  }

  /** Tables that fit the same rows say the same, whatever their internal ids. */
  lemma SameContents(t: Tables, u: Tables, d: Corpus)
    requires Fits(t, d) && Fits(u, d)
    ensures t.docs.Keys == u.docs.Keys && forall o :: o in t.docs ==> t.docs[o].len == u.docs[o].len
    ensures t.terms.Keys == u.terms.Keys && forall x :: x in t.terms ==> t.terms[x].df == u.terms[x].df >= 1
    ensures forall o, x, tf :: Shows(t.docs, t.terms, t.appearsIn, o, x, tf) <==> Shows(u.docs, u.terms, u.appearsIn, o, x, tf)
  {
    hide RelsOk, Shows, Holders, TermIds;
    forall o, x, tf
      ensures Shows(t.docs, t.terms, t.appearsIn, o, x, tf) <==> Shows(u.docs, u.terms, u.appearsIn, o, x, tf)
    {
      ShowsExactly(t.docs, t.nextDoc, t.terms, t.nextTerm, t.appearsIn, d, o, x, tf);
      ShowsExactly(u.docs, u.nextDoc, u.terms, u.nextTerm, u.appearsIn, d, o, x, tf);
    }
    DfsPositive(t.terms, t.nextTerm, d);
    forall x
      ensures x in t.terms <==> x in u.terms
    {
      assert x in t.terms <==> Holders(d, x) != {};
    }
  }

  // ------------------------------------------------------------------ one term at a time

  lemma TermsAddStep(a: TermTable, n: nat, b: TermTable, m: nat, done: set<string>, t: string)
    requires TermsAdded(a, n, b, m, done) && t !in done
    ensures if t in b then TermsAdded(a, n, b[t := TermRow(b[t].id, b[t].df + 1)], m, done + {t})
            else TermsAdded(a, n, b[t := TermRow(m, 1)], m + 1, done + {t})
  {
    hide TermsAdded;
    if t in b {
      KnownTermAdded(a, n, b, m, done, t);
    } else {
      NewTermAdded(a, n, b, m, done, t);
    }
  }

  lemma KnownTermAdded(a: TermTable, n: nat, b: TermTable, m: nat, done: set<string>, t: string)
    requires TermsAdded(a, n, b, m, done) && t !in done && t in b
    ensures TermsAdded(a, n, b[t := TermRow(b[t].id, b[t].df + 1)], m, done + {t})
  {
  }

  lemma NewTermAdded(a: TermTable, n: nat, b: TermTable, m: nat, done: set<string>, t: string)
    requires TermsAdded(a, n, b, m, done) && t !in done && t !in b
    ensures TermsAdded(a, n, b[t := TermRow(m, 1)], m + 1, done + {t})
  {
  }

  lemma TermsAddStart(a: TermTable, n: nat)
    requires TermIds(a, n)
    ensures TermsAdded(a, n, a, n, {})
  {
  }

  lemma TermsRemoveStep(a: TermTable, b: TermTable, done: set<string>, t: string)
    requires TermsRemoved(a, b, done) && t !in done && t in b && b[t].df >= 1
    ensures if b[t].df == 1 then TermsRemoved(a, b - {t}, done + {t})
            else TermsRemoved(a, b[t := TermRow(b[t].id, b[t].df - 1)], done + {t})
  {
  }

  ghost predicate DfPositive(terms: TermTable) {
    forall t :: t in terms ==> terms[t].df >= 1
  }

  lemma DfsPositive(terms: TermTable, n: nat, d: Corpus)
    requires TermsOk(terms, n, d)
    ensures DfPositive(terms) && TermIds(terms, n)
  {
    hide Holders;
    assert forall t :: t in terms ==> Holders(d, t) != {};
  }

  lemma TermsHeld(terms: TermTable, n: nat, d: Corpus, o: nat)
    requires TermsOk(terms, n, d) && o in d
    ensures TermSet(d[o]) <= terms.Keys
  {
    forall t | t in TermSet(d[o])
      ensures t in terms
    {
      HeldTerm(terms, n, d, o, t);
    }
  }

  method InsertToTermsTable(terms: TermTable, nextTerm: nat, infos: map<string, nat>) returns (b: TermTable, m: nat)
    requires TermIds(terms, nextTerm)
    ensures TermsAdded(terms, nextTerm, b, m, infos.Keys)
  {
    hide TermsAdded, TermIds;
    b, m := terms, nextTerm;
    TermsAddStart(terms, nextTerm);
    var todo := infos.Keys;
    ghost var done: set<string> := {};
    while todo != {}
      invariant done + todo == infos.Keys && done !! todo && TermsAdded(terms, nextTerm, b, m, done)
      decreases |todo|
    {
      var t :| t in todo;
      TermsAddStep(terms, nextTerm, b, m, done, t);
      b, m := CountTerm(b, m, t);
      todo, done := todo - {t}, done + {t};
    }
    assert done == infos.Keys;
  }

  /** Raises the term's df, or inserts it with df 1. */
  method CountTerm(b: TermTable, m: nat, t: string) returns (b': TermTable, m': nat)
    ensures if t in b then b' == b[t := TermRow(b[t].id, b[t].df + 1)] && m' == m
            else b' == b[t := TermRow(m, 1)] && m' == m + 1
  {
    if t in b {
      b', m' := b[t := TermRow(b[t].id, b[t].df + 1)], m;
    } else {
      b', m' := b[t := TermRow(m, 1)], m + 1;
    }
  }

  /** An error leaves it to the storage engine to undo what was done so far. */
  method DeleteFromTermsTable(terms: TermTable, infos: map<string, nat>) returns (r: Outcome, b: TermTable)
    requires DfPositive(terms)
    ensures r == if infos.Keys <= terms.Keys then Ok else Err(TermMissing)
    ensures r == Ok ==> TermsRemoved(terms, b, infos.Keys)
  {
    hide TermsRemoved;
    b := terms;
    RemoveStart(terms);
    var todo := infos.Keys;
    assert infos.Keys - todo == {};
    while todo != {}
      invariant todo <= infos.Keys && TermsRemoved(terms, b, infos.Keys - todo) && infos.Keys - todo <= terms.Keys
      decreases |todo|
    {
      var t :| t in todo;
      RemoveKeeps(terms, b, infos.Keys - todo, t);
      if t !in b {
        return Err(TermMissing), b;
      }
      TermsRemoveStep(terms, b, infos.Keys - todo, t);
      assert (infos.Keys - todo) + {t} == infos.Keys - (todo - {t});
      if b[t].df == 1 {
        b := b - {t};
      } else {
        b := b[t := TermRow(b[t].id, b[t].df - 1)];
      }
      todo := todo - {t};
    }
    assert infos.Keys - todo == infos.Keys;
    r := Ok;
  }

  lemma RemoveStart(terms: TermTable)
    ensures TermsRemoved(terms, terms, {})
  {
  }

  lemma RemoveKeeps(a: TermTable, b: TermTable, done: set<string>, t: string)
    requires TermsRemoved(a, b, done) && t !in done && DfPositive(a)
    ensures t in b <==> t in a
    ensures t in b ==> b[t].df >= 1
  {
  }

  /** The rows for a new document, in any order of its terms. */
  method InsertToAppearsInTable(rels: seq<Rel>, terms: TermTable, ghost n: nat, infos: map<string, nat>, ghost ts: seq<string>, doc: nat)
    returns (all: seq<Rel>)
    requires TermIds(terms, n) && infos.Keys == TermSet(ts) && infos.Keys <= terms.Keys && forall t :: t in infos ==> infos[t] == TF(ts, t)
    ensures exists more :: all == rels + more && NewRels(terms, ts, doc, more)
  {
    var more: seq<Rel> := [];
    var todo := infos.Keys;
    while todo != {}
      invariant todo <= infos.Keys && NoRepeats(more)
      invariant forall r :: r in more <==> exists t :: t in infos && t !in todo && r == Rel(terms[t].id, doc, infos[t])
      decreases |todo|
    {
      var t :| t in todo;
      OneMoreRel(more, terms, n, infos, doc, todo, t);
      more, todo := more + [Rel(terms[t].id, doc, infos[t])], todo - {t};
    }
    NewRelsFrom(more, terms, infos, ts, doc);
    all := rels + more;
  }

  lemma OneMoreRel(more: seq<Rel>, terms: TermTable, n: nat, infos: map<string, nat>, doc: nat, todo: set<string>, t: string)
    requires TermIds(terms, n) && infos.Keys <= terms.Keys && t in todo && todo <= infos.Keys && NoRepeats(more)
    requires forall r :: r in more <==> exists u :: u in infos && u !in todo && r == Rel(terms[u].id, doc, infos[u])
    ensures var all := more + [Rel(terms[t].id, doc, infos[t])];
            && NoRepeats(all)
            && forall x :: x in all <==> exists u :: u in infos && u !in todo - {t} && x == Rel(terms[u].id, doc, infos[u])
  {
    var r := Rel(terms[t].id, doc, infos[t]);
    assert r !in more;
    forall x
      ensures x in more + [r] <==> exists u :: u in infos && u !in todo - {t} && x == Rel(terms[u].id, doc, infos[u])
    {
      if u :| u in infos && u !in todo - {t} && x == Rel(terms[u].id, doc, infos[u]) {
        assert u == t ==> x == r;
      }
    }
  }

  lemma NewRelsFrom(more: seq<Rel>, terms: TermTable, infos: map<string, nat>, ts: seq<string>, doc: nat)
    requires infos.Keys == TermSet(ts) && infos.Keys <= terms.Keys && forall t :: t in infos ==> infos[t] == TF(ts, t)
    requires NoRepeats(more) && forall r :: r in more <==> exists t :: t in infos && r == Rel(terms[t].id, doc, infos[t])
    ensures NewRels(terms, ts, doc, more)
  {
    hide TF, NoRepeats;
    forall r
      ensures r in more <==> exists t :: t in ts && t in terms && r == Rel(terms[t].id, doc, TF(ts, t))
    {
      if t :| t in infos && r == Rel(terms[t].id, doc, infos[t]) {
        assert t in TermSet(ts);
      }
      if t :| t in ts && t in terms && r == Rel(terms[t].id, doc, TF(ts, t)) {
        assert t in TermSet(ts) && t in infos;
      }
    }
  }

  // ------------------------------------------------------------------ the index

  datatype Row = Row(offset: nat, text: string)

  ghost function CorpusOf(tok: string -> seq<string>, rows: map<nat, string>): (d: Corpus) {
    map o | o in rows && tok(rows[o]) != [] :: tok(rows[o])
  }

  lemma CorpusAdd(tok: string -> seq<string>, rows: map<nat, string>, o: nat, text: string)
    requires o !in rows
    ensures o !in CorpusOf(tok, rows)
    ensures CorpusOf(tok, rows[o := text]) == if tok(text) == [] then CorpusOf(tok, rows) else CorpusOf(tok, rows)[o := tok(text)]
  {
  }

  lemma CorpusRemove(tok: string -> seq<string>, rows: map<nat, string>, o: nat)
    ensures CorpusOf(tok, rows - {o}) == CorpusOf(tok, rows) - {o}
    ensures o in CorpusOf(tok, rows) <==> o in rows && tok(rows[o]) != []
    ensures o in CorpusOf(tok, rows) ==> CorpusOf(tok, rows)[o] == tok(rows[o])
  {
  }

  /** Document lengths, as the statistics count them. */
  ghost function Lens(docs: DocTable): (r: Docs)
    ensures r.Keys == docs.Keys && forall o :: o in docs ==> r[o] == docs[o].len
  {
    map o | o in docs :: docs[o].len
  }

  lemma LensAdd(docs: DocTable, o: nat, row: DocRow)
    requires o !in docs
    ensures |Lens(docs[o := row])| == |Lens(docs)| + 1
    ensures TotalLen(Lens(docs[o := row])) == TotalLen(Lens(docs)) + row.len
  {
    hide TotalLen;
    var a, b := Lens(docs), Lens(docs[o := row]);
    assert b - {o} == a;
    TotalLenWithout(b, o);
    Smaller(b, o);
  }

  lemma LensRemove(docs: DocTable, o: nat)
    requires o in docs
    ensures |Lens(docs - {o})| == |Lens(docs)| - 1
    ensures TotalLen(Lens(docs - {o})) == TotalLen(Lens(docs)) - docs[o].len
  {
    hide TotalLen;
    var a := Lens(docs);
    assert a - {o} == Lens(docs - {o});
    TotalLenWithout(a, o);
    Smaller(a, o);
  }

  /** Tables as one value. */
  datatype Tables = Tables(docs: DocTable, nextDoc: nat, terms: TermTable, nextTerm: nat, appearsIn: seq<Rel>)

  ghost predicate Fits(t: Tables, d: Corpus) {
    DocsOk(t.docs, t.nextDoc, d) && TermsOk(t.terms, t.nextTerm, d) && RelsOk(t.docs, t.terms, t.appearsIn, d)
  }

  /** Adds the tables' rows for one row of the indexed table. */
  method InsertRow(t: Tables, ghost d: Corpus, o: nat, ts: seq<string>) returns (u: Tables)
    requires Fits(t, d) && o !in d && ts != []
    ensures Fits(u, d[o := ts]) && u.docs == t.docs[o := DocRow(t.nextDoc, |ts|)] && o !in t.docs
  {
    hide DocsOk, TermsOk, RelsOk, TermsAdded, TermIds, TermSet, TF, NewRels;
    var infos := CountTerms(ts);
    DfsPositive(t.terms, t.nextTerm, d);
    var b, m := InsertToTermsTable(t.terms, t.nextTerm, infos);
    AddedIds(t.terms, t.nextTerm, b, m, infos.Keys);
    var rels := InsertToAppearsInTable(t.appearsIn, b, m, infos, ts, t.nextDoc);
    ghost var more :| rels == t.appearsIn + more && NewRels(b, ts, t.nextDoc, more);
    RelsAdd(t.docs, t.nextDoc, t.terms, t.nextTerm, b, m, t.appearsIn, more, d, o, ts);
    TermsAddedOk(t.terms, t.nextTerm, b, m, d, o, ts);
    DocsAdd(t.docs, t.nextDoc, d, o, ts);
    u := Tables(t.docs[o := DocRow(t.nextDoc, |ts|)], t.nextDoc + 1, b, m, rels);
  }

  lemma AddedIds(a: TermTable, n: nat, b: TermTable, m: nat, keys: set<string>)
    requires TermsAdded(a, n, b, m, keys)
    ensures TermIds(b, m) && keys <= b.Keys
  {
  }

  lemma DocsAdd(docs: DocTable, n: nat, d: Corpus, o: nat, ts: seq<string>)
    requires DocsOk(docs, n, d) && o !in d
    ensures DocsOk(docs[o := DocRow(n, |ts|)], n + 1, d[o := ts]) && o !in docs
  {
  }

  lemma DocsRemove(docs: DocTable, n: nat, d: Corpus, o: nat)
    requires DocsOk(docs, n, d)
    ensures DocsOk(docs - {o}, n, d - {o})
  {
  }

  /** Removes a document; ts are the terms of the row as it is looked up now. */
  method DeleteRow(t: Tables, ghost d: Corpus, o: nat, ts: seq<string>) returns (r: Outcome, u: Tables, len: nat)
    requires Fits(t, d) && (o in d ==> ts == d[o])
    ensures r == if o in d then Ok else Err(DocumentMissing)
    ensures r == Ok ==> Fits(u, d - {o}) && o in t.docs && u.docs == t.docs - {o} && len == t.docs[o].len
  {
    hide TermsOk, RelsOk, TermsAdded, TermIds, TermSet, TF;
    u, len := t, 0;
    if o !in t.docs {
      return Err(DocumentMissing), u, len;
    }
    var doc := t.docs[o];
    var infos := CountTerms(ts);
    DfsPositive(t.terms, t.nextTerm, d);
    var b: TermTable;
    TermsHeld(t.terms, t.nextTerm, d, o);
    r, b := DeleteFromTermsTable(t.terms, infos);
    hide DocsOk;
    RelsRemove(t.docs, t.nextDoc, t.terms, t.nextTerm, b, t.appearsIn, d, o);
    TermsRemovedOk(t.terms, b, t.nextTerm, d, o);
    DocsRemove(t.docs, t.nextDoc, d, o);
    len := doc.len;
    u := Tables(t.docs - {o}, t.nextDoc, b, t.nextTerm, WithoutDoc(t.appearsIn, doc.id));
  }

  // ------------------------------------------------------------------ batches

  const LIMIT32: nat := 0x1_0000_0000

  ghost predicate Distinct(batch: seq<Row>) {
    forall i, j :: 0 <= i < j < |batch| ==> batch[i].offset != batch[j].offset
  }

  ghost predicate Unindexed(rows: map<nat, string>, batch: seq<Row>) {
    forall i :: 0 <= i < |batch| ==> batch[i].offset !in rows
  }

  ghost function WithRows(rows: map<nat, string>, batch: seq<Row>): (r: map<nat, string>)
    ensures forall o :: o in r <==> o in rows || exists i :: 0 <= i < |batch| && batch[i].offset == o
  {
    if batch == [] then rows
    else WithRows(rows, batch[..|batch| - 1])[batch[|batch| - 1].offset := batch[|batch| - 1].text]
  }

  ghost function DocCount(tok: string -> seq<string>, batch: seq<Row>): nat {
    if batch == [] then 0
    else DocCount(tok, batch[..|batch| - 1]) + (if tok(batch[|batch| - 1].text) == [] then 0 else 1)
  }

  ghost function LenSum(tok: string -> seq<string>, batch: seq<Row>): nat {
    if batch == [] then 0 else LenSum(tok, batch[..|batch| - 1]) + |tok(batch[|batch| - 1].text)|
  }

  ghost function PrefixOf(batch: seq<Row>): nat {
    if batch == [] then 0 else Max(PrefixOf(batch[..|batch| - 1]), batch[|batch| - 1].offset + 1)
  }

  lemma {:induction false} PrefixCovers(batch: seq<Row>, i: nat)
    requires i < |batch|
    ensures batch[i].offset < PrefixOf(batch)
  {
    if i < |batch| - 1 {
      PrefixCovers(batch[..|batch| - 1], i);
    }
  }

  function Add32(a: nat, b: nat): nat { (a + b) % LIMIT32 }

  lemma Add32Total(total: nat, b: nat)
    ensures Add32(total % LIMIT32, b) == (total + b) % LIMIT32
  {
  }

  /** What the documents of a table add up to. */
  ghost predicate DocsGrew(before: DocTable, after: DocTable, n: int, len: int) {
    |Lens(after)| == |Lens(before)| + n && TotalLen(Lens(after)) == TotalLen(Lens(before)) + len
  }

  lemma Grew(before: DocTable, mid: DocTable, n: int, len: int, o: nat, row: DocRow)
    requires DocsGrew(before, mid, n, len) && o !in mid
    ensures DocsGrew(before, mid[o := row], n + 1, len + row.len)
  {
    hide TotalLen, Lens;
    LensAdd(mid, o, row);
  }

  lemma Shrank(before: DocTable, mid: DocTable, n: int, len: int, o: nat)
    requires DocsGrew(before, mid, n, len) && o in mid
    ensures DocsGrew(before, mid - {o}, n - 1, len - mid[o].len)
  {
    hide TotalLen, Lens;
    LensRemove(mid, o);
  }

  /** Inserts the rows of a batch; the total length is kept in 32 bits. */
  method InsertBatch(tok: string -> seq<string>, t: Tables, ghost rows: map<nat, string>, batch: seq<Row>)
    returns (u: Tables, numDocs: nat, totalDocLen: nat, prefix: nat)
    requires Fits(t, CorpusOf(tok, rows)) && Distinct(batch) && Unindexed(rows, batch)
    ensures Fits(u, CorpusOf(tok, WithRows(rows, batch)))
    ensures numDocs == DocCount(tok, batch) && totalDocLen == LenSum(tok, batch) % LIMIT32 && prefix == PrefixOf(batch)
    ensures DocsGrew(t.docs, u.docs, DocCount(tok, batch), LenSum(tok, batch))
  {
    hide Fits, CorpusOf, DocsGrew, Add32, DocCount, LenSum, PrefixOf, WithRows;
    u, numDocs, totalDocLen, prefix := t, 0, 0, 0;
    GrewNot(t.docs);
    BatchStart(tok, rows, batch);
    for i := 0 to |batch|
      invariant Fits(u, CorpusOf(tok, WithRows(rows, batch[..i])))
      invariant numDocs == DocCount(tok, batch[..i]) && prefix == PrefixOf(batch[..i])
      invariant totalDocLen == LenSum(tok, batch[..i]) % LIMIT32
      invariant DocsGrew(t.docs, u.docs, DocCount(tok, batch[..i]), LenSum(tok, batch[..i]))
    {
      var o, ts := batch[i].offset, tok(batch[i].text);
      BatchNext(tok, rows, batch, i);
      ghost var before := WithRows(rows, batch[..i]);
      CorpusAdd(tok, before, o, batch[i].text);
      Add32Total(LenSum(tok, batch[..i]), |ts|);
      prefix := Max(prefix, o + 1);
      if ts != [] {
        ghost var docs := u.docs;
        ghost var next := u.nextDoc;
        u := InsertRow(u, CorpusOf(tok, before), o, ts);
        Grew(t.docs, docs, DocCount(tok, batch[..i]), LenSum(tok, batch[..i]), o, DocRow(next, |ts|));
        totalDocLen := Add32(totalDocLen, |ts|);
        numDocs := numDocs + 1;
      }
    }
    assert batch[..|batch|] == batch;
  }

  /** Two documents of 2^31 terms each: the batch's total length is recorded as 0. */
  lemma LongBatchExample() returns (tok: string -> seq<string>, batch: seq<Row>)
    ensures Distinct(batch) && DocCount(tok, batch) == 2 && LenSum(tok, batch) == LIMIT32 && LenSum(tok, batch) % LIMIT32 == 0
  {
    tok := (s: string) => seq(0x8000_0000, _ => s);
    var a, b := Row(0, "a"), Row(1, "b");
    batch := [a, b];
    assert |tok(a.text)| == |tok(b.text)| == 0x8000_0000 && tok(a.text) != [] && tok(b.text) != [];
    assert batch[..1] == [a] && [a][..0] == [];
    assert LenSum(tok, [a]) == LenSum(tok, []) + |tok(a.text)|;
    assert DocCount(tok, [a]) == DocCount(tok, []) + 1;
  }

  lemma BatchStart(tok: string -> seq<string>, rows: map<nat, string>, batch: seq<Row>)
    ensures WithRows(rows, batch[..0]) == rows && DocCount(tok, batch[..0]) == 0 && LenSum(tok, batch[..0]) == 0
    ensures PrefixOf(batch[..0]) == 0
  {
  }

  lemma BatchNext(tok: string -> seq<string>, rows: map<nat, string>, batch: seq<Row>, i: nat)
    requires i < |batch| && Distinct(batch) && Unindexed(rows, batch)
    ensures batch[i].offset !in WithRows(rows, batch[..i])
    ensures WithRows(rows, batch[..i + 1]) == WithRows(rows, batch[..i])[batch[i].offset := batch[i].text]
    ensures DocCount(tok, batch[..i + 1]) == DocCount(tok, batch[..i]) + (if tok(batch[i].text) == [] then 0 else 1)
    ensures LenSum(tok, batch[..i + 1]) == LenSum(tok, batch[..i]) + |tok(batch[i].text)|
    ensures PrefixOf(batch[..i + 1]) == Max(PrefixOf(batch[..i]), batch[i].offset + 1)
  {
    assert batch[..i + 1][..i] == batch[..i];
  }

  lemma GrewNot(docs: DocTable)
    ensures DocsGrew(docs, docs, 0, 0)
  {
  }

  /** The row is skipped (never indexed, or without terms), or it has a document. */
  ghost predicate Deletable(tok: string -> seq<string>, rows: map<nat, string>, prefix: nat, row: Row) {
    row.offset >= prefix || tok(row.text) == [] || row.offset in rows
  }

  ghost predicate AllDeletable(tok: string -> seq<string>, rows: map<nat, string>, prefix: nat, batch: seq<Row>) {
    forall i :: 0 <= i < |batch| ==> Deletable(tok, rows, prefix, batch[i])
  }

  /** The texts looked up are those that were indexed. */
  ghost predicate SeesIndexed(rows: map<nat, string>, batch: seq<Row>) {
    forall i :: 0 <= i < |batch| && batch[i].offset in rows ==> batch[i].text == rows[batch[i].offset]
  }

  ghost function WithoutRows(rows: map<nat, string>, batch: seq<Row>): (r: map<nat, string>)
    ensures forall o :: o in r <==> o in rows && forall i :: 0 <= i < |batch| ==> batch[i].offset != o
    ensures forall o :: o in r ==> r[o] == rows[o]
  {
    if batch == [] then rows else WithoutRows(rows, batch[..|batch| - 1]) - {batch[|batch| - 1].offset}
  }

  /** Deletes the document of one row, or skips it. */
  method DeleteOne(tok: string -> seq<string>, t: Tables, ghost rows: map<nat, string>, numIndexed: nat, row: Row)
    returns (r: Outcome, u: Tables, n: nat, len: nat)
    requires Fits(t, CorpusOf(tok, rows)) && (row.offset in rows ==> row.text == rows[row.offset])
    ensures r == if Deletable(tok, rows, numIndexed, row) then Ok else Err(DocumentMissing)
    ensures r == Ok ==> Fits(u, CorpusOf(tok, rows - {row.offset})) && DocsGrew(t.docs, u.docs, 0 - n, 0 - len)
  {
    hide Fits, CorpusOf, DocsGrew;
    var o, ts := row.offset, tok(row.text);
    u, n, len := t, 0, 0;
    GrewNot(t.docs);
    CorpusRemove(tok, rows, o);
    FitsKeys(t, CorpusOf(tok, rows));
    if (o >= numIndexed && o !in t.docs) || ts == [] {
      SkipKeeps(tok, rows, o);
      return Ok, u, 0, 0;
    }
    r, u, len := DeleteRow(t, CorpusOf(tok, rows), o, ts);
    if r == Ok {
      Shrank(t.docs, t.docs, 0, 0, o);
      n := 1;
    }
  }

  /** Deletes the documents of a batch. The first missing document is an error; no term is ever missing. */
  method DeleteBatch(tok: string -> seq<string>, t: Tables, ghost rows: map<nat, string>, numIndexed: nat, batch: seq<Row>)
    returns (r: Outcome, u: Tables, numDocs: nat, totalDocLen: nat)
    requires Fits(t, CorpusOf(tok, rows)) && Distinct(batch) && SeesIndexed(rows, batch)
    ensures r == if AllDeletable(tok, rows, numIndexed, batch) then Ok else Err(DocumentMissing)
    ensures r == Ok ==> Fits(u, CorpusOf(tok, WithoutRows(rows, batch))) && DocsGrew(t.docs, u.docs, 0 - numDocs, 0 - totalDocLen)
  {
    hide Fits, CorpusOf, DocsGrew, Deletable, WithoutRows;
    u, numDocs, totalDocLen := t, 0, 0;
    GrewNot(t.docs);
    WithoutNone(rows, batch);
    for i := 0 to |batch|
      invariant Fits(u, CorpusOf(tok, WithoutRows(rows, batch[..i])))
      invariant forall j :: 0 <= j < i ==> Deletable(tok, rows, numIndexed, batch[j])
      invariant DocsGrew(t.docs, u.docs, 0 - numDocs, 0 - totalDocLen)
    {
      ghost var docs := u.docs;
      var n: nat, len: nat;
      WithoutNext(tok, rows, numIndexed, batch, i);
      r, u, n, len := DeleteOne(tok, u, WithoutRows(rows, batch[..i]), numIndexed, batch[i]);
      if r != Ok {
        return;
      }
      GrewTwice(t.docs, docs, u.docs, 0 - numDocs, 0 - totalDocLen, 0 - n, 0 - len);
      totalDocLen := totalDocLen + len;
      numDocs := numDocs + n;
    }
    assert batch[..|batch|] == batch;
    r := Ok;
  }

  lemma WithoutNone(rows: map<nat, string>, batch: seq<Row>)
    ensures WithoutRows(rows, batch[..0]) == rows
  {
  }

  lemma WithoutNext(tok: string -> seq<string>, rows: map<nat, string>, prefix: nat, batch: seq<Row>, i: nat)
    requires i < |batch| && Distinct(batch) && SeesIndexed(rows, batch)
    ensures WithoutRows(rows, batch[..i + 1]) == WithoutRows(rows, batch[..i]) - {batch[i].offset}
    ensures Deletable(tok, WithoutRows(rows, batch[..i]), prefix, batch[i]) <==> Deletable(tok, rows, prefix, batch[i])
    ensures batch[i].offset in WithoutRows(rows, batch[..i]) ==> batch[i].text == WithoutRows(rows, batch[..i])[batch[i].offset]
  {
    assert batch[..i + 1][..i] == batch[..i];
    assert batch[i].offset in WithoutRows(rows, batch[..i]) <==> batch[i].offset in rows;
  }

  lemma GrewTwice(a: DocTable, b: DocTable, c: DocTable, n: int, len: int, n': int, len': int)
    requires DocsGrew(a, b, n, len) && DocsGrew(b, c, n', len')
    ensures DocsGrew(a, c, n + n', len + len')
  {
    hide TotalLen, Lens;
  }

  lemma FitsKeys(t: Tables, d: Corpus)
    requires Fits(t, d)
    ensures t.docs.Keys == d.Keys
  {
  }

  lemma SkipKeeps(tok: string -> seq<string>, rows: map<nat, string>, o: nat)
    requires o !in CorpusOf(tok, rows)
    ensures CorpusOf(tok, rows - {o}) == CorpusOf(tok, rows)
  {
    CorpusRemove(tok, rows, o);
  }

  // ------------------------------------------------------------------ the index object

  class FTSIndex {
    const tok: string -> seq<string>
    const stats: StatsState
    var tables: Tables

    /** The rows indexed so far, with the text they were indexed with. */
    ghost var rows: map<nat, string>

    /** The tables are what a rebuild from the indexed rows would give. */
    ghost predicate Valid()
      reads this
    {
      Fits(tables, CorpusOf(tok, rows))
    }

    /** The transaction is told the number and total length of the documents it sees. */
    ghost predicate StatsFit(tx: nat)
      reads this, stats
    {
      Fit(stats.Value(), tx, tables.docs)
    }

    /** The number is right, but the total length is too small. */
    ghost predicate StatsLag(tx: nat)
      reads this, stats
    {
      Lags(stats.Value(), tx, tables.docs)
    }

    /** No row above the indexed prefix is indexed. */
    ghost predicate PrefixOk(tx: nat)
      reads this, stats
    {
      forall o :: o in rows ==> o < Prefix(stats.Value(), tx)
    }

    constructor (tok: string -> seq<string>)
      ensures Valid() && rows == map[] && this.tok == tok && fresh(stats)
      ensures forall tx: nat :: StatsFit(tx) && PrefixOk(tx)
    {
      this.tok := tok;
      tables := Tables(map[], 0, map[], 0, []);
      rows := map[];
      stats := new StatsState(0, 0.0, 0);
      new;
      EmptyFits(tok);
      NoDocsNoLen(Lens(tables.docs));
    }

    method Insert(tx: nat, batch: seq<Row>)
      requires Valid() && Distinct(batch) && Unindexed(rows, batch)
      modifies this`tables, this`rows, stats
      ensures Valid() && rows == WithRows(old(rows), batch)
      ensures stats.Value() == Updated(old(stats.Value()), tx, DocCount(tok, batch), (LenSum(tok, batch) % LIMIT32) as real, PrefixOf(batch))
      ensures old(StatsFit(tx)) ==> (StatsFit(tx) <==> LenSum(tok, batch) < LIMIT32) && (StatsFit(tx) || StatsLag(tx))
      ensures old(StatsLag(tx)) ==> StatsLag(tx)
      ensures old(PrefixOk(tx)) ==> PrefixOk(tx)
      ensures forall i :: 0 <= i < |batch| ==> batch[i].offset < Prefix(stats.Value(), tx)
    {
      hide Fits, CorpusOf, WithRows, DocCount, LenSum, PrefixOf, Updated, Distinct, Unindexed, Prefix;
      ghost var s, docs := stats.Value(), tables.docs;
      var u, numDocs, totalDocLen, prefix := InsertBatch(tok, tables, rows, batch);
      tables := u;
      rows := WithRows(rows, batch);
      stats.UpdateStats(tx, numDocs, totalDocLen as real, prefix);
      StatsLagged(s, tx, docs, u.docs, numDocs, LenSum(tok, batch), totalDocLen, prefix);
      InsertPrefix(s, tx, old(rows), batch, numDocs, totalDocLen as real);
    }

    /** Fails only on a row with terms below the indexed prefix that was never indexed. */
    method Delete(tx: nat, batch: seq<Row>) returns (r: Outcome)
      requires Valid() && Distinct(batch) && SeesIndexed(rows, batch)
      modifies this`tables, this`rows, stats
      ensures r == if AllDeletable(tok, old(rows), Prefix(old(stats.Value()), tx), batch) then Ok else Err(DocumentMissing)
      ensures r == Ok ==> Valid() && rows == WithoutRows(old(rows), batch)
      ensures r == Ok && old(StatsFit(tx)) ==> StatsFit(tx)
      ensures r == Ok && old(PrefixOk(tx)) ==> PrefixOk(tx)
      ensures Prefix(stats.Value(), tx) == Prefix(old(stats.Value()), tx)
    {
      hide Fits, CorpusOf, Updated, Distinct, SeesIndexed, AllDeletable, Prefix, Seen;
      ghost var s, docs := stats.Value(), tables.docs;
      var numIndexed := stats.GetNumIndexedNodes(tx);
      var u, n, len;
      r, u, n, len := DeleteBatch(tok, tables, rows, numIndexed, batch);
      if r != Ok {
        return;
      }
      tables := u;
      rows := WithoutRows(rows, batch);
      var dn: int, dlen: int := n, len;
      stats.UpdateStats(tx, -dn, (-dlen) as real, 0);
      if Fit(s, tx, docs) {
        StatsGrew(s, tx, docs, u.docs, -dn, -dlen, -dlen, 0);
      }
      PrefixUpdated(s, tx, -dn, (-dlen) as real, 0);
    }

    /** Replaces the text of one row. */
    method Update(tx: nat, o: nat, oldText: string, newText: string) returns (r: Outcome)
      requires Valid() && (o in rows ==> oldText == rows[o])
      modifies this`tables, this`rows, stats
      ensures r == if Deletable(tok, old(rows), Prefix(old(stats.Value()), tx), Row(o, oldText)) then Ok else Err(DocumentMissing)
      ensures r == Ok ==> Valid() && rows == old(rows)[o := newText]
      ensures r == Ok && old(StatsFit(tx)) ==> (StatsFit(tx) <==> |tok(newText)| < LIMIT32) && (StatsFit(tx) || StatsLag(tx))
      ensures r == Ok && old(PrefixOk(tx)) ==> PrefixOk(tx)
    {
      hide Fits, CorpusOf, Updated, Prefix, Seen, Deletable, AllDeletable, SeesIndexed, Distinct, Unindexed, WithRows, WithoutRows,
        LenSum, DocCount, PrefixOf, Fit;
      var gone, come := [Row(o, oldText)], [Row(o, newText)];
      OneRow(tok, rows, gone[0]);
      r := Delete(tx, gone);
      if r != Ok {
        return;
      }
      OneRow(tok, rows, come[0]);
      Insert(tx, come);
      Replaced(old(rows), o, newText);
    }

    method InsertOne(tx: nat, row: Row)
      requires Valid() && PrefixOk(tx) && row.offset >= Prefix(stats.Value(), tx)
      modifies this`tables, this`rows, stats
      ensures Valid() && PrefixOk(tx) && rows == old(rows)[row.offset := row.text]
      ensures Prefix(stats.Value(), tx) == row.offset + 1
      ensures old(StatsFit(tx)) ==> (StatsFit(tx) <==> |tok(row.text)| < LIMIT32) && (StatsFit(tx) || StatsLag(tx))
      ensures old(StatsLag(tx)) ==> StatsLag(tx)
    {
      hide Fits, CorpusOf, Updated, Prefix, Fit, Lags, Seen, LenSum, DocCount, SeesIndexed, AllDeletable, WithRows, WithoutRows;
      OneRow(tok, rows, row);
      Insert(tx, [row]);
      PrefixUpdated(old(stats.Value()), tx, DocCount(tok, [row]), (LenSum(tok, [row]) % LIMIT32) as real, PrefixOf([row]));
    }

    /** Indexes the live rows above the indexed prefix. */
    method Finalize(tx: nat, table: map<nat, string>, numTotalRows: nat)
      requires Valid() && PrefixOk(tx)
      modifies this`tables, this`rows, stats
      ensures Valid() && PrefixOk(tx)
      ensures rows == old(rows) + Between(table, Prefix(old(stats.Value()), tx), numTotalRows)
      ensures forall o :: o in table && o < numTotalRows ==> o < Prefix(stats.Value(), tx)
      ensures Prefix(stats.Value(), tx) <= Max(Prefix(old(stats.Value()), tx), numTotalRows)
      ensures Between(table, Prefix(old(stats.Value()), tx), numTotalRows) == map[] ==>
                tables == old(tables) && stats.Value() == old(stats.Value())
      ensures old(StatsFit(tx)) ==>
                (StatsFit(tx) <==> AllShort(tok, Between(table, Prefix(old(stats.Value()), tx), numTotalRows)))
    {
      hide Fits, CorpusOf, Prefix, Between, Fit, Lags;
      var start := stats.GetNumIndexedNodes(tx);
      if numTotalRows == start {
        BetweenNone(table, start, numTotalRows);
        assert rows + map[] == rows;
        return;
      }
      var offset := start;
      BetweenNone(table, start, start);
      assert rows + map[] == rows;
      while offset < numTotalRows
        invariant start <= offset && (offset <= numTotalRows || offset == start)
        invariant Valid() && PrefixOk(tx) && rows == old(rows) + Between(table, start, offset)
        invariant forall o :: o in table && o < offset ==> o < Prefix(stats.Value(), tx)
        invariant Prefix(stats.Value(), tx) <= offset
        invariant Between(table, start, offset) == map[] ==> tables == old(tables) && stats.Value() == old(stats.Value())
        invariant old(StatsFit(tx)) ==> (if AllShort(tok, Between(table, start, offset)) then StatsFit(tx) else StatsLag(tx))
      {
        BetweenNext(table, start, offset);
        if offset in table {
          ghost var before := Between(table, start, offset);
          InsertOne(tx, Row(offset, table[offset]));
          PlusOne(old(rows), before, offset, table[offset]);
          ShortOne(tok, before, offset, table[offset]);
        }
        offset := offset + 1;
      }
      if numTotalRows < start {
        BetweenNone(table, start, numTotalRows);
      }
      LagIsNotFit(stats.Value(), tx, tables.docs);
    }
  }

  /** No document is too long for a 32-bit length. */
  ghost predicate AllShort(tok: string -> seq<string>, rows: map<nat, string>) {
    forall o :: o in rows ==> |tok(rows[o])| < LIMIT32
  }

  /** The rows of a table from one offset up to another. */
  ghost function Between(table: map<nat, string>, lo: nat, hi: nat): map<nat, string> {
    map o | o in table && lo <= o < hi :: table[o]
  }

  lemma BetweenNone(table: map<nat, string>, lo: nat, hi: nat)
    requires hi <= lo
    ensures Between(table, lo, hi) == map[]
  {
  }

  lemma BetweenNext(table: map<nat, string>, lo: nat, hi: nat)
    requires lo <= hi
    ensures Between(table, lo, hi + 1) == if hi in table then Between(table, lo, hi)[hi := table[hi]] else Between(table, lo, hi)
    ensures hi !in Between(table, lo, hi)
  {
  }

  lemma Replaced(rows: map<nat, string>, o: nat, text: string)
    ensures (rows - {o})[o := text] == rows[o := text]
  {
  }

  lemma PlusOne(rows: map<nat, string>, more: map<nat, string>, o: nat, text: string)
    ensures (rows + more)[o := text] == rows + more[o := text]
  {
  }

  lemma EmptyFits(tok: string -> seq<string>)
    ensures Fits(Tables(map[], 0, map[], 0, []), CorpusOf(tok, map[]))
  {
    var d := CorpusOf(tok, map[]);
    assert d == map[];
    assert forall t :: Holders(d, t) == {};
  }

  lemma OneRow(tok: string -> seq<string>, rows: map<nat, string>, row: Row)
    ensures Distinct([row]) && (row.offset !in rows ==> Unindexed(rows, [row]))
    ensures (row.offset in rows ==> row.text == rows[row.offset]) ==> SeesIndexed(rows, [row])
    ensures WithRows(rows, [row]) == rows[row.offset := row.text] && WithoutRows(rows, [row]) == rows - {row.offset}
    ensures LenSum(tok, [row]) == |tok(row.text)| && PrefixOf([row]) == row.offset + 1
    ensures forall prefix: nat :: AllDeletable(tok, rows, prefix, [row]) <==> Deletable(tok, rows, prefix, row)
  {
    var batch := [row];
    assert batch[..0] == [];
    forall prefix: nat
      ensures AllDeletable(tok, rows, prefix, batch) <==> Deletable(tok, rows, prefix, row)
    {
      assert batch[0] == row;
    }
  }

  lemma SeenUpdated(s: Stats, tx: nat, n: int, len: real, prefix: nat)
    ensures var t := Updated(s, tx, n, len, prefix);
            Seen(t, tx).0 == Seen(s, tx).0 + n && Seen(t, tx).1 == Seen(s, tx).1 + len
  {
    hide Updated, DeltaOf;
    UpdatedDelta(s, tx, n, len, prefix, tx);
    SameTotals(s, Updated(s, tx, n, len, prefix));
  }

  lemma PrefixUpdated(s: Stats, tx: nat, n: int, len: real, prefix: nat)
    ensures Prefix(Updated(s, tx, n, len, prefix), tx) == Max(Prefix(s, tx), prefix)
  {
  }

  ghost predicate Fit(s: Stats, tx: nat, docs: DocTable) {
    Seen(s, tx).0 == |Lens(docs)| && Seen(s, tx).1 == TotalLen(Lens(docs)) as real
  }

  ghost predicate Lags(s: Stats, tx: nat, docs: DocTable) {
    Seen(s, tx).0 == |Lens(docs)| && Seen(s, tx).1 < TotalLen(Lens(docs)) as real
  }

  lemma LagIsNotFit(s: Stats, tx: nat, docs: DocTable)
    ensures !(Fit(s, tx, docs) && Lags(s, tx, docs))
  {
  }

  lemma ShortOne(tok: string -> seq<string>, rows: map<nat, string>, o: nat, text: string)
    requires o !in rows
    ensures AllShort(tok, rows[o := text]) <==> AllShort(tok, rows) && |tok(text)| < LIMIT32
  {
    var all := rows[o := text];
    assert forall x :: x in rows ==> x in all && all[x] == rows[x];
    assert all[o] == text;
  }

  /** A length that is reported too small is never made up for. */
  lemma StatsLagged(s: Stats, tx: nat, before: DocTable, after: DocTable, n: int, len: nat, reported: nat, prefix: nat)
    requires DocsGrew(before, after, n, len) && reported == len % LIMIT32
    ensures var t := Updated(s, tx, n, reported as real, prefix);
            && (Fit(s, tx, before) ==> (Fit(t, tx, after) <==> len < LIMIT32) && (Fit(t, tx, after) || Lags(t, tx, after)))
            && (Lags(s, tx, before) ==> Lags(t, tx, after))
  {
    hide Updated, Lens, TotalLen, Seen;
    SeenUpdated(s, tx, n, reported as real, prefix);
    assert reported <= len && (reported == len <==> len < LIMIT32);
  }

  /** The statistics stay right exactly if the reported length is the true one. */
  lemma StatsGrew(s: Stats, tx: nat, before: DocTable, after: DocTable, n: int, len: int, reported: int, prefix: nat)
    requires DocsGrew(before, after, n, len) && Fit(s, tx, before)
    ensures Fit(Updated(s, tx, n, reported as real, prefix), tx, after) <==> reported == len
  {
    hide Updated, Lens, TotalLen, Seen;
    SeenUpdated(s, tx, n, reported as real, prefix);
  }

  lemma InsertPrefix(s: Stats, tx: nat, rows: map<nat, string>, batch: seq<Row>, n: int, len: real)
    ensures var t := Updated(s, tx, n, len, PrefixOf(batch));
            && Prefix(t, tx) >= Prefix(s, tx)
            && forall i :: 0 <= i < |batch| ==> batch[i].offset < Prefix(t, tx)
  {
    hide Updated, Prefix;
    PrefixUpdated(s, tx, n, len, PrefixOf(batch));
    forall i | 0 <= i < |batch|
      ensures batch[i].offset < PrefixOf(batch)
    {
      PrefixCovers(batch, i);
    }
  }

  /** After finalize the index holds all live rows exactly if every live row below the prefix was indexed. */
  lemma FinalizeComplete(rows: map<nat, string>, table: map<nat, string>, prefix: nat, total: nat)
    requires forall o :: o in rows ==> o in table && rows[o] == table[o] && o < prefix
    requires forall o :: o in table ==> o < total
    ensures rows + Between(table, prefix, total) == table <==> forall o :: o in table && o < prefix ==> o in rows
  {
    var all := rows + Between(table, prefix, total);
    assert forall o :: o in all <==> o in rows || (o in table && prefix <= o < total);
    if forall o :: o in table && o < prefix ==> o in rows {
      assert all.Keys == table.Keys;
    } else {
      var o :| o in table && o < prefix && o !in rows;
      assert o !in all;
    }
  }

  // ------------------------------------------------------------------ whole histories

  datatype Op =
    | InsertOp(batch: seq<Row>)
    | DeleteOp(batch: seq<Row>)
    | UpdateOp(offset: nat, oldText: string, newText: string)

  /** New rows are inserted, indexed rows are deleted or updated, with the text they were indexed with. */
  ghost predicate Legal(rows: map<nat, string>, op: Op) {
    match op
    case InsertOp(batch) => Distinct(batch) && Unindexed(rows, batch)
    case DeleteOp(batch) => Distinct(batch) && SeesIndexed(rows, batch) && forall i :: 0 <= i < |batch| ==> batch[i].offset in rows
    case UpdateOp(o, oldText, _) => o in rows && oldText == rows[o]
  }

  ghost function RowsAfter(rows: map<nat, string>, ops: seq<Op>): map<nat, string> {
    if ops == [] then rows
    else
      var before := RowsAfter(rows, ops[..|ops| - 1]);
      match ops[|ops| - 1]
      case InsertOp(batch) => WithRows(before, batch)
      case DeleteOp(batch) => WithoutRows(before, batch)
      case UpdateOp(o, _, newText) => before[o := newText]
  }

  ghost predicate LegalHistory(rows: map<nat, string>, ops: seq<Op>) {
    forall i :: 0 <= i < |ops| ==> Legal(RowsAfter(rows, ops[..i]), ops[i])
  }

  /** Any sequence of inserts, updates and deletes succeeds and keeps the tables equal to a rebuild from
      the live rows; neither inconsistency is ever reported. */
  method Replay(index: FTSIndex, tx: nat, ops: seq<Op>) returns (r: Outcome)
    requires index.Valid() && LegalHistory(index.rows, ops)
    modifies index, index.stats
    ensures r == Ok && index.Valid() && index.rows == RowsAfter(old(index.rows), ops)
  {
    hide Fits, CorpusOf, Fit, Prefix, Updated, Distinct, Unindexed, SeesIndexed, WithRows, WithoutRows;
    r := Ok;
    for i := 0 to |ops|
      invariant r == Ok && index.Valid() && index.rows == RowsAfter(old(index.rows), ops[..i])
    {
      assert ops[..i + 1][..i] == ops[..i];
      assert Legal(index.rows, ops[i]);
      match ops[i]
      case InsertOp(batch) => index.Insert(tx, batch);
      case DeleteOp(batch) => r := index.Delete(tx, batch);
      case UpdateOp(o, oldText, newText) => r := index.Update(tx, o, oldText, newText);
    }
    assert ops[..|ops|] == ops;
  }

  /** Builds the tables from scratch, row by row in any order. */
  method Rebuild(tok: string -> seq<string>, rows: map<nat, string>) returns (t: Tables)
    ensures Fits(t, CorpusOf(tok, rows))
  {
    hide Fits, CorpusOf;
    t := Tables(map[], 0, map[], 0, []);
    EmptyFits(tok);
    var done: map<nat, string> := map[];
    var todo := rows.Keys;
    while todo != {}
      invariant todo <= rows.Keys && done == rows - todo && Fits(t, CorpusOf(tok, done))
      decreases |todo|
    {
      var o :| o in todo;
      var ts := tok(rows[o]);
      CorpusAdd(tok, done, o, rows[o]);
      if ts != [] {
        t := InsertRow(t, CorpusOf(tok, done), o, ts);
      }
      done, todo := done[o := rows[o]], todo - {o};
    }
    assert done == rows;
  }
}
