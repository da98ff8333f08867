/** The statistics of a full-text index: committed values plus one pending change per transaction
    (fts/src/index/fts_index.cpp, updateStats and its commit and rollback callbacks). */
module FTSStats {
  import opened Basics

  /** What a transaction has changed so far. */
  datatype Delta = Delta(numDocs: int, totalDocLen: real, numCheckpointedNodes: nat)

  datatype Stats = Stats(numDocs: int, avgDocLen: real, numCheckpointedNodes: nat, deltas: map<nat, Delta>)

  function DeltaOf(s: Stats, tx: nat): Delta {
    if tx in s.deltas then s.deltas[tx] else Delta(0, 0.0, 0)
  }

  function Updated(s: Stats, tx: nat, numDocs: int, totalDocLen: real, prefix: nat): Stats {
    if numDocs == 0 && totalDocLen == 0.0 && prefix == 0 then s
    else
      var d := DeltaOf(s, tx);
      s.(deltas := s.deltas[tx := Delta(d.numDocs + numDocs, d.totalDocLen + totalDocLen,
                                        Max(d.numCheckpointedNodes, prefix))])
  }

  function TotalDocLen(s: Stats): real { s.avgDocLen * s.numDocs as real }

  function Average(total: real, n: int): real {
    if n == 0 then 0.0 else total / n as real
  }

  /** The commit callback; it exists only once the transaction has changed something. */
  function Committed(s: Stats, tx: nat): Stats {
    if tx !in s.deltas then s
    else
      var d := s.deltas[tx];
      var n := s.numDocs + d.numDocs;
      Stats(n, Average(TotalDocLen(s) + d.totalDocLen, n), Max(s.numCheckpointedNodes, d.numCheckpointedNodes),
            s.deltas - {tx})
  }

  function RolledBack(s: Stats, tx: nat): Stats {
    s.(deltas := s.deltas - {tx})
  }

  /** The shared state. */
  class StatsState {
    var numDocs: int
    var avgDocLen: real
    var numCheckpointedNodes: nat
    var deltas: map<nat, Delta>

    ghost function Value(): Stats
      reads this
    {
      Stats(numDocs, avgDocLen, numCheckpointedNodes, deltas)
    }

    constructor (numDocs: int, avgDocLen: real, numCheckpointedNodes: nat)
      ensures Value() == Stats(numDocs, avgDocLen, numCheckpointedNodes, map[])
    {
      this.numDocs, this.avgDocLen, this.numCheckpointedNodes, this.deltas := numDocs, avgDocLen, numCheckpointedNodes, map[];
    }

    /** What the transaction is told grows by exactly the reported change; nobody else is told anything new. */
    method UpdateStats(tx: nat, numDocs: int, totalDocLen: real, prefix: nat)
      modifies this
      ensures Value() == Updated(old(Value()), tx, numDocs, totalDocLen, prefix)
      ensures Seen(Value(), tx) == (old(Seen(Value(), tx)).0 + numDocs, old(Seen(Value(), tx)).1 + totalDocLen)
      ensures Prefix(Value(), tx) >= prefix && Prefix(Value(), tx) in {old(Prefix(Value(), tx)), prefix}
      ensures forall ty: nat :: ty != tx ==>
                Seen(Value(), ty) == old(Seen(Value(), ty)) && Prefix(Value(), ty) == old(Prefix(Value(), ty))
    {
      UpdatedMeans(Value(), tx, numDocs, totalDocLen, prefix);
      if numDocs == 0 && totalDocLen == 0.0 && prefix == 0 {
        return;
      }
      if tx !in deltas {
        deltas := deltas[tx := Delta(0, 0.0, 0)];
      }
      var d := deltas[tx];
      deltas := deltas[tx := Delta(d.numDocs + numDocs, d.totalDocLen + totalDocLen, Max(d.numCheckpointedNodes, prefix))];
    }

    /** Afterwards the committed statistics are those of the documents the transaction saw, its prefixes are
        committed, and the other transactions' changes are still in step. */
    method Commit(tx: nat)
      modifies this
      ensures Value() == Committed(old(Value()), tx)
      ensures forall w :: Tracks(old(Value()), w) ==> Tracks(Value(), Apply(w, Event.Commit(tx))) && Holds(Value(), w.View(tx), w.Known(tx))
    {
      hide Tracks, Holds, Apply;
      ghost var before := Value();
      if tx in deltas {
        var d := deltas[tx];
        var committedNumDocs := numDocs + d.numDocs;
        var committedTotalDocLen := avgDocLen * numDocs as real + d.totalDocLen;
        numDocs := committedNumDocs;
        avgDocLen := if committedNumDocs == 0 then 0.0 else committedTotalDocLen / committedNumDocs as real;
        numCheckpointedNodes := Max(numCheckpointedNodes, d.numCheckpointedNodes);
        deltas := deltas - {tx};
      }
      CommitMeans(before, tx);
    }

    /** Afterwards the transaction is told the committed statistics only, everyone else the same as before,
        and the statistics are in step with the documents without its changes. */
    method Rollback(tx: nat)
      modifies this
      ensures Value() == RolledBack(old(Value()), tx)
      ensures Seen(Value(), tx) == (old(numDocs), TotalDocLen(old(Value()))) && Prefix(Value(), tx) == old(numCheckpointedNodes)
      ensures forall ty: nat :: ty != tx ==>
                Seen(Value(), ty) == old(Seen(Value(), ty)) && Prefix(Value(), ty) == old(Prefix(Value(), ty))
      ensures forall w :: Tracks(old(Value()), w) ==> Tracks(Value(), Apply(w, Event.Rollback(tx)))
    {
      hide Tracks, Apply, Seen, Prefix;
      ghost var before := Value();
      deltas := deltas - {tx};
      RolledBackMeans(before, tx);
      RollbackMeans(before, tx);
    }

    /** The number of documents the transaction sees, and their average length. */
    method GetStats(tx: nat) returns (n: int, avg: real)
      ensures n == Seen(Value(), tx).0 && avg == Average(Seen(Value(), tx).1, n)
      ensures forall w :: Tracks(Value(), w) ==> Counts(w.View(tx), n, avg)
    {
      hide Tracks, Counts;
      n := numDocs;
      var totalDocLen := avgDocLen * numDocs as real;
      if tx in deltas {
        n := n + deltas[tx].numDocs;
        totalDocLen := totalDocLen + deltas[tx].totalDocLen;
      }
      avg := if n == 0 then 0.0 else totalDocLen / n as real;
      ToldIsTrue(Value(), tx);
    }

    /** The largest prefix reported by a committed insert or by one of the transaction's own. */
    method GetNumIndexedNodes(tx: nat) returns (prefix: nat)
      ensures prefix == Prefix(Value(), tx)
      ensures forall w :: Tracks(Value(), w) ==> IsLargest(prefix, w.Known(tx))
    {
      hide Tracks, IsLargest, Counts;
      prefix := numCheckpointedNodes;
      if tx in deltas {
        prefix := Max(prefix, deltas[tx].numCheckpointedNodes);
      }
      ToldIsTrue(Value(), tx);
    }
  }

  /** n documents of average length avg. */
  ghost predicate Counts(d: Docs, n: int, avg: real) {
    n == |d| && avg * n as real == TotalLen(d) as real
  }

  /** The committed statistics are those of the given documents, with the largest of the given prefixes. */
  ghost predicate Holds(s: Stats, d: Docs, prefixes: set<nat>) {
    Counts(d, s.numDocs, s.avgDocLen) && IsLargest(s.numCheckpointedNodes, prefixes)
  }

  lemma UpdatedMeans(s: Stats, tx: nat, n: int, len: real, prefix: nat)
    ensures var t := Updated(s, tx, n, len, prefix);
            && Seen(t, tx) == (Seen(s, tx).0 + n, Seen(s, tx).1 + len)
            && Prefix(t, tx) == Max(Prefix(s, tx), prefix)
            && forall ty: nat :: ty != tx ==> Seen(t, ty) == Seen(s, ty) && Prefix(t, ty) == Prefix(s, ty)
  {
    hide Updated, DeltaOf, TotalDocLen;
    var t := Updated(s, tx, n, len, prefix);
    UpdatedDelta(s, tx, n, len, prefix, tx);
    SameTotals(s, t);
    forall ty: nat | ty != tx
      ensures Seen(t, ty) == Seen(s, ty) && Prefix(t, ty) == Prefix(s, ty)
    {
      UpdatedDelta(s, tx, n, len, prefix, ty);
    }
  }

  lemma RolledBackMeans(s: Stats, tx: nat)
    ensures var t := RolledBack(s, tx);
            && Seen(t, tx) == (s.numDocs, TotalDocLen(s)) && Prefix(t, tx) == s.numCheckpointedNodes
            && forall ty: nat :: ty != tx ==> Seen(t, ty) == Seen(s, ty) && Prefix(t, ty) == Prefix(s, ty)
  {
    hide TotalDocLen;
    SameTotals(s, RolledBack(s, tx));
    assert Seen(RolledBack(s, tx), tx).1 == TotalDocLen(s) + 0.0;
  }

  lemma CommitMeans(s: Stats, tx: nat)
    ensures forall w :: Tracks(s, w) ==> Tracks(Committed(s, tx), Apply(w, Commit(tx))) && Holds(Committed(s, tx), w.View(tx), w.Known(tx))
  {
    hide Tracks, Committed, TotalLen, IsLargest, Apply, World.View, World.Known;
    forall w | Tracks(s, w)
      ensures Tracks(Committed(s, tx), Apply(w, Commit(tx))) && Holds(Committed(s, tx), w.View(tx), w.Known(tx))
    {
      CommitTracks(s, w, tx);
      CommitTotals(s, w, tx);
    }
  }

  lemma RollbackMeans(s: Stats, tx: nat)
    ensures forall w :: Tracks(s, w) ==> Tracks(RolledBack(s, tx), Apply(w, Rollback(tx)))
  {
    hide Tracks, RolledBack, Apply;
    forall w | Tracks(s, w)
      ensures Tracks(RolledBack(s, tx), Apply(w, Rollback(tx)))
    {
      RollbackTracks(s, w, tx);
    }
  }

  lemma ToldIsTrue(s: Stats, tx: nat)
    ensures forall w :: Tracks(s, w) ==>
              Counts(w.View(tx), Seen(s, tx).0, Average(Seen(s, tx).1, Seen(s, tx).0)) && IsLargest(Prefix(s, tx), w.Known(tx))
  {
    hide Tracks, Seen, Average, TotalLen, Prefix, IsLargest, World.View, World.Known;
    forall w | Tracks(s, w)
      ensures Counts(w.View(tx), Seen(s, tx).0, Average(Seen(s, tx).1, Seen(s, tx).0)) && IsLargest(Prefix(s, tx), w.Known(tx))
    {
      SeenIsView(s, w, tx);
      PrefixIsLargest(s, w, tx);
      if |w.View(tx)| == 0 {
        NoDocsNoLen(w.View(tx));
      }
      AverageTotals(Seen(s, tx).1, Seen(s, tx).0);
    }
  }

  /** Number of documents and their total length as a transaction sees them. */
  ghost function Seen(s: Stats, tx: nat): (int, real) {
    (s.numDocs + DeltaOf(s, tx).numDocs, TotalDocLen(s) + DeltaOf(s, tx).totalDocLen)
  }

  ghost function Prefix(s: Stats, tx: nat): nat {
    Max(s.numCheckpointedNodes, DeltaOf(s, tx).numCheckpointedNodes)
  }

  // ------------------------------------------------------------------ documents

  /** Length of each document. */
  type Docs = map<nat, nat>

  ghost function TotalLen(d: Docs): nat {
    if d == map[] then 0 else var k :| k in d; d[k] + TotalLen(d - {k})
  }

  lemma {:induction false} TotalLenWithout(d: Docs, k: nat)
    requires k in d
    ensures TotalLen(d) == d[k] + TotalLen(d - {k})
    decreases |d|
  {
    var j :| j in d && TotalLen(d) == d[j] + TotalLen(d - {j});
    if j != k {
      assert |d - {j}| < |d| && |d - {k}| < |d| by { Smaller(d, j); Smaller(d, k); }
      TotalLenWithout(d - {j}, k);
      TotalLenWithout(d - {k}, j);
      assert (d - {j}) - {k} == (d - {k}) - {j};
    }
  }

  lemma Smaller(d: Docs, k: nat)
    requires k in d
    ensures |d - {k}| == |d| - 1
  {
    assert (d - {k}).Keys == d.Keys - {k};
    assert |d.Keys| == |d| && |(d - {k}).Keys| == |d - {k}|;
  }

  lemma UnionSize(a: Docs, b: Docs)
    requires a.Keys !! b.Keys
    ensures |a + b| == |a| + |b|
  {
    assert (a + b).Keys == a.Keys + b.Keys;
    assert |a.Keys| == |a| && |b.Keys| == |b| && |(a + b).Keys| == |a + b|;
  }

  lemma {:induction false} TotalLenUnion(a: Docs, b: Docs)
    requires a.Keys !! b.Keys
    ensures TotalLen(a + b) == TotalLen(a) + TotalLen(b) && |a + b| == |a| + |b|
    decreases |b|
  {
    hide TotalLen;
    UnionSize(a, b);
    if b == map[] {
      NoDocsNoLen(b);
      assert a + b == a;
    } else {
      var k :| k in b;
      Smaller(b, k);
      TotalLenUnion(a, b - {k});
      TotalLenWithout(b, k);
      TotalLenWithout(a + b, k);
      PlusMinus(a, b, k);
    }
  }

  ghost predicate PartOf(gone: Docs, d: Docs) {
    gone.Keys <= d.Keys && forall k :: k in gone ==> gone[k] == d[k]
  }

  /** Documents d without those in gone, a part of d. */
  lemma TotalLenMinus(d: Docs, gone: Docs)
    requires PartOf(gone, d)
    ensures TotalLen(d - gone.Keys) == TotalLen(d) - TotalLen(gone) && |d - gone.Keys| == |d| - |gone|
  {
    hide *;
    MinusPlus(d, gone);
    MinusApart(d, gone);
    TotalLenUnion(d - gone.Keys, gone);
  }

  lemma MinusApart(d: Docs, gone: Docs)
    ensures (d - gone.Keys).Keys !! gone.Keys
  {
  }

  lemma MinusPlus(d: Docs, gone: Docs)
    requires PartOf(gone, d)
    ensures (d - gone.Keys) + gone == d
  {
    var e := (d - gone.Keys) + gone;
    assert e.Keys == d.Keys;
    forall k | k in d
      ensures e[k] == d[k]
    {
    }
  }

  lemma PlusMinus(a: Docs, b: Docs, k: nat)
    requires a.Keys !! b.Keys && k in b
    ensures (a + b) - {k} == a + (b - {k}) && (a + b)[k] == b[k]
  {
  }

  // ------------------------------------------------------------------ transactions

  /** Documents a transaction has removed from the committed ones, those it has added, and the prefixes its
      inserts reported as indexed. */
  datatype Pending = Pending(gone: Docs, added: Docs, reported: set<nat>)

  /** The committed documents, the prefixes committed inserts reported, and the open transactions' changes. */
  datatype World = World(committed: Docs, reported: set<nat>, pending: map<nat, Pending>) {
    ghost function Of(tx: nat): Pending {
      if tx in pending then pending[tx] else Pending(map[], map[], {})
    }

    /** The prefixes a transaction knows of. */
    ghost function Known(tx: nat): set<nat> {
      reported + Of(tx).reported
    }

    /** What a transaction sees. */
    ghost function View(tx: nat): Docs {
      (committed - Of(tx).gone.Keys) + Of(tx).added
    }
  }

  ghost predicate PendingOk(committed: Docs, p: Pending) {
    && PartOf(p.gone, committed)
    && p.added.Keys !! (committed.Keys - p.gone.Keys)
  }

  /** Two open transactions never remove or add the same document. */
  ghost predicate Isolated(p: Pending, q: Pending) {
    p.gone.Keys !! q.gone.Keys && p.added.Keys !! q.added.Keys
  }

  ghost predicate WorldOk(w: World) {
    && (forall tx :: tx in w.pending ==> PendingOk(w.committed, w.pending[tx]))
    && (forall tx, ty :: tx in w.pending && ty in w.pending && tx != ty ==> Isolated(w.pending[tx], w.pending[ty]))
  }

  /** The statistics count the committed documents, and each delta a transaction's changes. */
  ghost predicate Tracks(s: Stats, w: World) {
    && WorldOk(w)
    && s.numDocs == |w.committed| && TotalDocLen(s) == TotalLen(w.committed) as real
    && IsLargest(s.numCheckpointedNodes, w.reported)
    && (forall tx: nat :: InStep(DeltaOf(s, tx), w.Of(tx)))
  }

  ghost predicate IsLargest(p: nat, all: set<nat>) {
    p in all && forall q :: q in all ==> q <= p
  }

  datatype Event =
    | Insert(tx: nat, docs: Docs, prefix: nat)
    | Delete(tx: nat, keys: set<nat>)
    | Commit(tx: nat)
    | Rollback(tx: nat)

  /** The effect on the documents. */
  ghost function Apply(w: World, e: Event): World {
    match e
    case Insert(tx, docs, prefix) =>
      w.(pending := w.pending[tx := Pending(w.Of(tx).gone, w.Of(tx).added + docs, w.Of(tx).reported + {prefix})])
    case Delete(tx, keys) => w.(pending := w.pending[tx := Removed(w, tx, keys)])
    case Commit(tx) => World(w.View(tx), w.Known(tx), w.pending - {tx})
    case Rollback(tx) => w.(pending := w.pending - {tx})
  }

  ghost function Removed(w: World, tx: nat, keys: set<nat>): Pending {
    Pending(w.Of(tx).gone + Taken(w, tx, keys), w.Of(tx).added - keys, w.Of(tx).reported)
  }

  /** The transaction inserts new documents and removes only what it sees, and the storage engine lets no
      two open transactions touch the same document. */
  ghost predicate Allowed(w: World, e: Event) {
    match e
    case Insert(tx, docs, _) => docs.Keys !! w.View(tx).Keys && WorldOk(Apply(w, e))
    case Delete(tx, keys) => keys <= w.View(tx).Keys && WorldOk(Apply(w, e))
    case _ => true
  }

  ghost function Chosen(d: Docs, keys: set<nat>): Docs {
    map k | k in keys && k in d :: d[k]
  }

  /** The effect on the statistics: what insert and delete report, and the callbacks. */
  ghost function Step(s: Stats, w: World, e: Event): Stats {
    match e
    case Insert(tx, docs, prefix) => Updated(s, tx, |docs|, TotalLen(docs) as real, prefix)
    case Delete(tx, keys) =>
      var d := Chosen(w.View(tx), keys);
      Updated(s, tx, -|d|, -(TotalLen(d) as real), 0)
    case Commit(tx) => Committed(s, tx)
    case Rollback(tx) => RolledBack(s, tx)
  }

  lemma ViewCounts(w: World, tx: nat)
    requires WorldOk(w)
    ensures |w.View(tx)| == |w.committed| + |w.Of(tx).added| - |w.Of(tx).gone|
    ensures TotalLen(w.View(tx)) == TotalLen(w.committed) + TotalLen(w.Of(tx).added) - TotalLen(w.Of(tx).gone)
  {
    var p := w.Of(tx);
    assert PendingOk(w.committed, p);
    TotalLenMinus(w.committed, p.gone);
    TotalLenUnion(w.committed - p.gone.Keys, p.added);
  }

  /** What a transaction is told equals what it sees, with the others' open changes invisible. */
  lemma SeenIsView(s: Stats, w: World, tx: nat)
    requires Tracks(s, w)
    ensures Seen(s, tx).0 == |w.View(tx)| && Seen(s, tx).1 == TotalLen(w.View(tx)) as real
  {
    hide TotalLen;
    ViewCounts(w, tx);
  }

  /** The indexed prefix a transaction is told is the largest one it knows of. */
  lemma PrefixIsLargest(s: Stats, w: World, tx: nat)
    requires Tracks(s, w)
    ensures IsLargest(Prefix(s, tx), w.Known(tx))
  {
    hide TotalLen, WorldOk, DeltaOf;
    assert InStep(DeltaOf(s, tx), w.Of(tx));
    LargestOf(s.numCheckpointedNodes, w.reported, DeltaOf(s, tx).numCheckpointedNodes, w.Of(tx).reported);
  }

  lemma UpdatedDelta(s: Stats, tx: nat, n: int, len: real, prefix: nat, ty: nat)
    ensures var t := Updated(s, tx, n, len, prefix);
            && DeltaOf(t, ty).numDocs == DeltaOf(s, ty).numDocs + (if tx == ty then n else 0)
            && DeltaOf(t, ty).totalDocLen == DeltaOf(s, ty).totalDocLen + (if tx == ty then len else 0.0)
            && DeltaOf(t, ty).numCheckpointedNodes ==
               (if tx == ty then Max(DeltaOf(s, ty).numCheckpointedNodes, prefix) else DeltaOf(s, ty).numCheckpointedNodes)
            && t.numDocs == s.numDocs && t.avgDocLen == s.avgDocLen && t.numCheckpointedNodes == s.numCheckpointedNodes
  {
  }

  /** The pending changes p after a report of n documents, len terms and a prefix. */
  ghost predicate Grown(p: Pending, q: Pending, n: int, len: int, prefix: nat) {
    && |q.added| - |q.gone| == |p.added| - |p.gone| + n
    && TotalLen(q.added) - TotalLen(q.gone) == TotalLen(p.added) - TotalLen(p.gone) + len
    && q.reported + {0} == p.reported + {prefix, 0}
  }

  lemma GrownInStep(d: Delta, e: Delta, p: Pending, q: Pending, n: int, len: int, prefix: nat)
    requires InStep(d, p) && Grown(p, q, n, len, prefix) && e.numDocs == d.numDocs + n
    requires e.totalDocLen == d.totalDocLen + len as real && e.numCheckpointedNodes == Max(d.numCheckpointedNodes, prefix)
    ensures InStep(e, q)
  {
    hide TotalLen;
    LargestWith(d.numCheckpointedNodes, p.reported + {0}, prefix);
    assert p.reported + {0} + {prefix} == q.reported + {0};
  }

  /** A transaction's own changes, in documents and in its delta. */
  lemma ChangeTracks(s: Stats, w: World, tx: nat, p: Pending, n: int, len: int, prefix: nat)
    requires Tracks(s, w) && WorldOk(w.(pending := w.pending[tx := p])) && Grown(w.Of(tx), p, n, len, prefix)
    ensures Tracks(Updated(s, tx, n, len as real, prefix), w.(pending := w.pending[tx := p]))
  {
    hide TotalLen, Updated, DeltaOf, WorldOk, InStep, Grown, IsLargest;
    var t, v := Updated(s, tx, n, len as real, prefix), w.(pending := w.pending[tx := p]);
    forall ty: nat
      ensures InStep(DeltaOf(t, ty), v.Of(ty))
    {
      UpdatedDelta(s, tx, n, len as real, prefix, ty);
      if ty == tx {
        GrownInStep(DeltaOf(s, tx), DeltaOf(t, tx), w.Of(tx), p, n, len, prefix);
      } else {
        assert v.Of(ty) == w.Of(ty);
        SameDelta(DeltaOf(s, ty), DeltaOf(t, ty), w.Of(ty));
      }
    }
    UpdatedDelta(s, tx, n, len as real, prefix, tx);
    SameTotals(s, t);
  }

  lemma SameDelta(d: Delta, e: Delta, p: Pending)
    requires InStep(d, p) && d.numDocs == e.numDocs && d.totalDocLen == e.totalDocLen && d.numCheckpointedNodes == e.numCheckpointedNodes
    ensures InStep(e, p)
  {
  }

  lemma LargestWith(p: nat, all: set<nat>, q: nat)
    requires IsLargest(p, all)
    ensures IsLargest(Max(p, q), all + {q})
  {
  }

  lemma LargestOf(p: nat, a: set<nat>, q: nat, b: set<nat>)
    requires IsLargest(p, a) && IsLargest(q, b + {0})
    ensures IsLargest(Max(p, q), a + b)
  {
  }

  lemma InsertTracks(s: Stats, w: World, e: Event)
    requires Tracks(s, w) && e.Insert? && Allowed(w, e)
    ensures Tracks(Step(s, w, e), Apply(w, e))
  {
    hide Tracks, WorldOk, TotalLen, World.Of, Updated;
    AddedApart(w, e);
    GrownByInsert(w.Of(e.tx), e.docs, e.prefix);
    hide Grown;
    var p := w.Of(e.tx);
    ChangeTracks(s, w, e.tx, Pending(p.gone, p.added + e.docs, p.reported + {e.prefix}), |e.docs|, TotalLen(e.docs), e.prefix);
  }

  lemma AddedApart(w: World, e: Event)
    requires e.Insert? && e.docs.Keys !! w.View(e.tx).Keys
    ensures w.Of(e.tx).added.Keys !! e.docs.Keys
  {
  }

  lemma GrownByInsert(p: Pending, docs: Docs, prefix: nat)
    requires p.added.Keys !! docs.Keys
    ensures Grown(p, Pending(p.gone, p.added + docs, p.reported + {prefix}), |docs|, TotalLen(docs), prefix)
  {
    hide TotalLen;
    TotalLenUnion(p.added, docs);
  }

  /** What a transaction removes is partly its own, partly committed. */
  lemma RemovedCounts(w: World, tx: nat, keys: set<nat>)
    requires PendingOk(w.committed, w.Of(tx)) && keys <= w.View(tx).Keys
    ensures var p, q, d := w.Of(tx), Removed(w, tx, keys), Chosen(w.View(tx), keys);
            && |q.added| - |q.gone| == |p.added| - |p.gone| - |d|
            && TotalLen(q.added) - TotalLen(q.gone) == TotalLen(p.added) - TotalLen(p.gone) - TotalLen(d)
  {
    hide TotalLen;
    var p, d := w.Of(tx), Chosen(w.View(tx), keys);
    var own, taken := Chosen(p.added, keys), Taken(w, tx, keys);
    RemovedParts(w, tx, keys);
    hide Chosen, Taken;
    TotalLenUnion(own, taken);
    TotalLenUnion(p.gone, taken);
    TotalLenMinus(p.added, own);
  }

  ghost function Taken(w: World, tx: nat, keys: set<nat>): Docs {
    var p := w.Of(tx);
    map k | k in keys && k in w.committed && k !in p.gone && k !in p.added :: w.committed[k]
  }

  lemma RemovedParts(w: World, tx: nat, keys: set<nat>)
    requires PendingOk(w.committed, w.Of(tx)) && keys <= w.View(tx).Keys
    ensures var p, own, taken := w.Of(tx), Chosen(w.Of(tx).added, keys), Taken(w, tx, keys);
            && Chosen(w.View(tx), keys) == own + taken
            && own.Keys !! taken.Keys && p.gone.Keys !! taken.Keys && p.added - own.Keys == p.added - keys
            && PartOf(own, p.added)
  {
    var p, own, taken := w.Of(tx), Chosen(w.Of(tx).added, keys), Taken(w, tx, keys);
    var d := Chosen(w.View(tx), keys);
    assert d.Keys == keys;
    assert (own + taken).Keys == keys;
    forall k | k in keys
      ensures d[k] == (own + taken)[k]
    {
    }
  }

  lemma DeleteTracks(s: Stats, w: World, e: Event)
    requires Tracks(s, w) && e.Delete? && Allowed(w, e)
    ensures Tracks(Step(s, w, e), Apply(w, e))
  {
    hide TotalLen, Tracks, Updated, WorldOk, Removed, Chosen;
    var d := Chosen(w.View(e.tx), e.keys);
    PendingFacts(s, w, e.tx);
    RemovedCounts(w, e.tx, e.keys);
    var len: int := TotalLen(d);
    assert -(len as real) == (-len) as real;
    var q := Removed(w, e.tx, e.keys);
    RemovedReports(w, e.tx, e.keys);
    ChangeTracks(s, w, e.tx, q, -|d|, -len, 0);
  }

  lemma RemovedReports(w: World, tx: nat, keys: set<nat>)
    ensures Removed(w, tx, keys).reported + {0} == w.Of(tx).reported + {0, 0}
  {
  }

  lemma PendingFacts(s: Stats, w: World, tx: nat)
    requires Tracks(s, w)
    ensures PendingOk(w.committed, w.Of(tx))
  {
    hide TotalLen;
  }

  lemma CommitWorld(w: World, tx: nat)
    requires WorldOk(w)
    ensures WorldOk(Apply(w, Commit(tx)))
  {
    var v := Apply(w, Commit(tx));
    forall ty | ty in v.pending
      ensures PendingOk(v.committed, v.pending[ty])
    {
      assert PendingOk(w.committed, w.Of(tx)) && PendingOk(w.committed, w.pending[ty]);
      assert Isolated(w.Of(tx), w.pending[ty]);
    }
  }

  lemma AverageTotals(total: real, n: int)
    requires n == 0 ==> total == 0.0
    ensures Average(total, n) * n as real == total
  {
  }

  lemma {:induction false} NoDocsNoLen(d: Docs)
    requires |d| == 0
    ensures TotalLen(d) == 0
  {
    assert d == map[];
  }

  ghost predicate InStep(d: Delta, p: Pending) {
    && d.numDocs == |p.added| - |p.gone| && d.totalDocLen == (TotalLen(p.added) - TotalLen(p.gone)) as real
    && IsLargest(d.numCheckpointedNodes, p.reported + {0})
  }

  lemma NothingPending()
    ensures InStep(Delta(0, 0.0, 0), Pending(map[], map[], {}))
  {
    NoDocsNoLen(map[]);
  }

  /** Dropping a transaction's delta and its pending changes keeps the others in step. */
  lemma OthersTrack(s: Stats, w: World, t: Stats, v: World, tx: nat, ty: nat)
    requires InStep(DeltaOf(s, ty), w.Of(ty)) && t.deltas == s.deltas - {tx} && v.pending == w.pending - {tx}
    ensures InStep(DeltaOf(t, ty), v.Of(ty))
  {
    hide InStep;
    if ty == tx {
      NothingPending();
      assert ty !in t.deltas && ty !in v.pending;
    } else {
      assert ty in t.deltas <==> ty in s.deltas;
      assert ty in v.pending <==> ty in w.pending;
    }
  }

  lemma CommittedTotals(s: Stats, tx: nat)
    requires Seen(s, tx).0 == 0 ==> Seen(s, tx).1 == 0.0
    ensures var t := Committed(s, tx);
            && t.numDocs == Seen(s, tx).0 && TotalDocLen(t) == Seen(s, tx).1 && t.deltas == s.deltas - {tx}
            && t.numCheckpointedNodes == Prefix(s, tx)
  {
    hide Average;
    AverageTotals(Seen(s, tx).1, Seen(s, tx).0);
    assert tx !in s.deltas ==> s.deltas - {tx} == s.deltas;
  }

  lemma CommitTotals(s: Stats, w: World, tx: nat)
    requires Tracks(s, w)
    ensures Committed(s, tx).numDocs == |w.View(tx)|
    ensures TotalDocLen(Committed(s, tx)) == TotalLen(w.View(tx)) as real
    ensures Committed(s, tx).deltas == s.deltas - {tx}
    ensures IsLargest(Committed(s, tx).numCheckpointedNodes, w.Known(tx))
  {
    hide *;
    PrefixIsLargest(s, w, tx);
    SeenIsView(s, w, tx);
    if |w.View(tx)| == 0 {
      NoDocsNoLen(w.View(tx));
    }
    CommittedTotals(s, tx);
  }

  lemma CommitTracks(s: Stats, w: World, tx: nat)
    requires Tracks(s, w)
    ensures Tracks(Committed(s, tx), Apply(w, Commit(tx)))
  {
    hide TotalLen, WorldOk, TotalDocLen, Committed, DeltaOf, InStep;
    var t, v := Committed(s, tx), Apply(w, Commit(tx));
    CommitWorld(w, tx);
    CommitTotals(s, w, tx);
    forall ty: nat
      ensures InStep(DeltaOf(t, ty), v.Of(ty))
    {
      OthersTrack(s, w, t, v, tx, ty);
    }
  }

  /** A transaction that is rolled back leaves no trace. */
  lemma RollbackTracks(s: Stats, w: World, tx: nat)
    requires Tracks(s, w)
    ensures Tracks(RolledBack(s, tx), Apply(w, Rollback(tx)))
  {
    hide TotalLen, DeltaOf, InStep, WorldOk, TotalDocLen;
    var t, v := RolledBack(s, tx), Apply(w, Rollback(tx));
    assert TotalDocLen(t) == TotalDocLen(s) by { SameTotals(s, t); }
    forall ty: nat
      ensures InStep(DeltaOf(t, ty), v.Of(ty))
    {
      OthersTrack(s, w, t, v, tx, ty);
    }
    RollbackWorld(w, tx);
  }

  lemma SameTotals(s: Stats, t: Stats)
    requires s.numDocs == t.numDocs && s.avgDocLen == t.avgDocLen
    ensures TotalDocLen(s) == TotalDocLen(t)
  {
  }

  lemma RollbackWorld(w: World, tx: nat)
    requires WorldOk(w)
    ensures WorldOk(Apply(w, Rollback(tx)))
  {
    hide PendingOk, Isolated;
  }

  lemma EventTracks(s: Stats, w: World, e: Event)
    requires Tracks(s, w) && Allowed(w, e)
    ensures Tracks(Step(s, w, e), Apply(w, e))
  {
    hide Tracks, Allowed;
    match e {
      case Insert(_, _, _) => InsertTracks(s, w, e);
      case Delete(_, _) => DeleteTracks(s, w, e);
      case Commit(tx) => CommitTracks(s, w, tx);
      case Rollback(tx) => RollbackTracks(s, w, tx);
    }
  }

  // ------------------------------------------------------------------ whole histories

  ghost function WorldAfter(w: World, events: seq<Event>): World {
    if events == [] then w else Apply(WorldAfter(w, events[..|events| - 1]), events[|events| - 1])
  }

  ghost function StatsAfter(s: Stats, w: World, events: seq<Event>): Stats {
    if events == [] then s
    else Step(StatsAfter(s, w, events[..|events| - 1]), WorldAfter(w, events[..|events| - 1]), events[|events| - 1])
  }

  ghost predicate AllAllowed(w: World, events: seq<Event>) {
    forall i :: 0 <= i < |events| ==> Allowed(WorldAfter(w, events[..i]), events[i])
  }

  /** Any interleaving of transactions: the statistics always count exactly the committed documents. */
  lemma {:induction false} HistoryTracks(s: Stats, w: World, events: seq<Event>)
    requires Tracks(s, w) && AllAllowed(w, events)
    ensures Tracks(StatsAfter(s, w, events), WorldAfter(w, events))
  {
    hide Tracks, Allowed;
    if events != [] {
      var n := |events| - 1;
      var before := events[..n];
      assert forall i :: 0 <= i < n ==> before[..i] == events[..i];
      HistoryTracks(s, w, before);
      EventTracks(StatsAfter(s, w, before), WorldAfter(w, before), events[n]);
    }
  }

  /** The same statistics, except for one transaction's delta. */
  ghost predicate SameButFor(s: Stats, t: Stats, tx: nat) {
    && s.numDocs == t.numDocs && s.avgDocLen == t.avgDocLen && s.numCheckpointedNodes == t.numCheckpointedNodes
    && (forall ty: nat :: ty != tx ==> (ty in s.deltas <==> ty in t.deltas))
    && (forall ty: nat :: ty != tx && ty in s.deltas ==> s.deltas[ty] == t.deltas[ty])
  }

  ghost predicate SameDocsButFor(v: World, w: World, tx: nat) {
    v.committed == w.committed && v.reported == w.reported && forall ty: nat :: ty != tx ==> v.Of(ty) == w.Of(ty)
  }

  /** A transaction that never commits leaves no trace in the statistics: without its events they, and every
      other transaction's delta, would be the same. */
  lemma {:induction false} UncommittedLeavesNoTrace(s: Stats, w: World, events: seq<Event>, tx: nat)
    requires forall i :: 0 <= i < |events| ==> events[i] != Commit(tx)
    ensures SameButFor(StatsAfter(s, w, Without(events, tx)), StatsAfter(s, w, events), tx)
    ensures SameDocsButFor(WorldAfter(w, Without(events, tx)), WorldAfter(w, events), tx)
  {
    hide Apply, Step, SameButFor, SameDocsButFor;
    if events == [] {
      SameSelf(s, w, tx);
    } else {
      var n := |events| - 1;
      var e, before := events[n], events[..n];
      UncommittedLeavesNoTrace(s, w, before, tx);
      var kept := Without(before, tx);
      var s1, s2 := StatsAfter(s, w, kept), StatsAfter(s, w, before);
      var w1, w2 := WorldAfter(w, kept), WorldAfter(w, before);
      if e.tx != tx {
        assert Without(events, tx)[..|kept|] == kept;
        SameForOthers(s1, s2, w1, w2, e, tx);
      } else {
        assert Without(events, tx) == kept;
        OwnOnly(s1, s2, w1, w2, e);
      }
    }
  }

  lemma SameSelf(s: Stats, w: World, tx: nat)
    ensures SameButFor(s, s, tx) && SameDocsButFor(w, w, tx)
  {
  }

  ghost function Without(events: seq<Event>, tx: nat): seq<Event> {
    if events == [] then []
    else Without(events[..|events| - 1], tx) + (if events[|events| - 1].tx == tx then [] else [events[|events| - 1]])
  }

  /** An event of the transaction itself, short of a commit, touches nothing but its own delta. */
  lemma OwnOnly(s: Stats, t: Stats, v: World, w: World, e: Event)
    requires !e.Commit? && SameButFor(s, t, e.tx) && SameDocsButFor(v, w, e.tx)
    ensures SameButFor(s, Step(t, w, e), e.tx) && SameDocsButFor(v, Apply(w, e), e.tx)
  {
    hide TotalLen, Taken, Chosen;
    forall ty: nat | ty != e.tx
      ensures Apply(w, e).Of(ty) == w.Of(ty)
    {
    }
  }

  /** An event of another transaction does the same on both sides. */
  lemma SameForOthers(s: Stats, t: Stats, v: World, w: World, e: Event, tx: nat)
    requires e.tx != tx && SameButFor(s, t, tx) && SameDocsButFor(v, w, tx)
    ensures SameButFor(Step(s, v, e), Step(t, w, e), tx) && SameDocsButFor(Apply(v, e), Apply(w, e), tx)
  {
    hide TotalLen, Chosen, Apply, Updated, Committed, RolledBack;
    assert v.Of(e.tx) == w.Of(e.tx) && v.View(e.tx) == w.View(e.tx) && v.Known(e.tx) == w.Known(e.tx);
    SameDocsStep(v, w, e, tx);
    hide World.View;
    match e {
      case Insert(ty, docs, prefix) => SameUpdated(s, t, tx, ty, |docs|, TotalLen(docs) as real, prefix);
      case Delete(ty, keys) =>
        var d := Chosen(v.View(ty), keys);
        SameUpdated(s, t, tx, ty, -|d|, -(TotalLen(d) as real), 0);
      case Commit(ty) => SameCallbacks(s, t, tx, ty);
      case Rollback(ty) => SameCallbacks(s, t, tx, ty);
    }
  }

  lemma SameUpdated(s: Stats, t: Stats, tx: nat, ty: nat, n: int, len: real, prefix: nat)
    requires ty != tx && SameButFor(s, t, tx)
    ensures SameButFor(Updated(s, ty, n, len, prefix), Updated(t, ty, n, len, prefix), tx)
  {
    assert DeltaOf(s, ty) == DeltaOf(t, ty);
  }

  lemma SameCallbacks(s: Stats, t: Stats, tx: nat, ty: nat)
    requires ty != tx && SameButFor(s, t, tx)
    ensures SameButFor(Committed(s, ty), Committed(t, ty), tx) && SameButFor(RolledBack(s, ty), RolledBack(t, ty), tx)
  {
    hide Average, Max;
    SameTotals(s, t);
  }

  lemma SameDocsStep(v: World, w: World, e: Event, tx: nat)
    requires e.tx != tx && SameDocsButFor(v, w, tx) && v.Of(e.tx) == w.Of(e.tx) && v.View(e.tx) == w.View(e.tx)
    ensures SameDocsButFor(Apply(v, e), Apply(w, e), tx)
  {
    forall ty: nat | ty != tx
      ensures Apply(v, e).Of(ty) == Apply(w, e).Of(ty)
    {
      assert v.Of(ty) == w.Of(ty);
    }
  }
}
