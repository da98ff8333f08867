/** One UNION branch per combination of repetition counts (gql/src/gql_transformer.cpp, statement driver). */
module GqlBranches {
  import opened Basics
  import opened GqlPath

  /** A factor whose count varies between branches. */
  datatype Unroll = Unroll(id: nat, lo: nat, hi: nat)

  const MAX_BRANCHES: nat := 8

  // ------------------------------------------------------------------ enumerating the combinations

  ghost predicate InBox(us: seq<Unroll>, picks: seq<nat>) {
    |picks| == |us| && forall x :: 0 <= x < |us| ==> us[x].lo <= picks[x] <= us[x].hi
  }

  ghost predicate Extends(us: seq<Unroll>, picks: seq<nat>, b: seq<nat>) {
    InBox(us, b) && |picks| <= |b| && b[..|picks|] == picks
  }

  /** All combinations that start with the given counts, each once. */
  method Expand(us: seq<Unroll>, picks: seq<nat>) returns (bs: seq<seq<nat>>)
    requires |picks| <= |us| && InBox(us[..|picks|], picks)
    ensures NoRepeats(bs) && forall b :: b in bs <==> Extends(us, picks, b)
    decreases |us| - |picks|
  {
    var i := |picks|;
    if i == |us| {
      assert us[..i] == us;
      bs := [picks];
      assert forall b :: Extends(us, picks, b) ==> b == b[..i] == picks;
      return;
    }
    bs := [];
    var k := us[i].lo;
    while k <= us[i].hi
      invariant us[i].lo <= k
      invariant NoRepeats(bs) && forall b :: b in bs <==> Extends(us, picks, b) && b[i] < k
      decreases us[i].hi + 1 - k
    {
      assert InBox(us[..i + 1], picks + [k]);
      var more := Expand(us, picks + [k]);
      forall b
        ensures Extends(us, picks + [k], b) <==> Extends(us, picks, b) && b[i] == k
      {
        ExtendsMore(us, picks, k, b);
      }
      ApartNoRepeats(bs, more, i, k);
      bs := bs + more;
      k := k + 1;
    }
  }

  ghost function Product(us: seq<Unroll>): nat {
    if us == [] then 1 else Product(us[..|us| - 1]) * Width(us[|us| - 1])
  }

  function Width(u: Unroll): nat { if u.lo <= u.hi then u.hi - u.lo + 1 else 0 }

  /** The branches of a statement, refused if there would be too many. */
  method Branches(us: seq<Unroll>) returns (bs: Option<seq<seq<nat>>>)
    ensures bs.Some? <==> Product(us) <= MAX_BRANCHES
    ensures bs.Some? ==> NoRepeats(bs.value) && forall b :: b in bs.value <==> InBox(us, b)
  {
    var branchCount := 1;
    for i := 0 to |us|
      invariant branchCount == Product(us[..i])
    {
      assert us[..i + 1][..i] == us[..i];
      branchCount := branchCount * Width(us[i]);
    }
    assert us[..|us|] == us;
    if branchCount > MAX_BRANCHES {
      return None;
    }
    var all := Expand(us, []);
    assert forall b :: Extends(us, [], b) <==> InBox(us, b);
    bs := Some(all);
  }

  lemma ExtendsMore(us: seq<Unroll>, picks: seq<nat>, k: nat, b: seq<nat>)
    requires |picks| < |us|
    ensures Extends(us, picks + [k], b) <==> Extends(us, picks, b) && b[|picks|] == k
  {
    var i := |picks|;
    if Extends(us, picks + [k], b) {
      assert b[..i] == b[..i + 1][..i] == picks && b[i] == b[..i + 1][i];
    }
    if Extends(us, picks, b) && b[i] == k {
      assert b[..i + 1] == b[..i] + [b[i]];
    }
  }

  lemma ApartNoRepeats(a: seq<seq<nat>>, b: seq<seq<nat>>, i: nat, k: nat)
    requires NoRepeats(a) && NoRepeats(b)
    requires (forall x :: x in a ==> i < |x| && x[i] < k) && (forall x :: x in b ==> i < |x| && x[i] == k)
    ensures NoRepeats(a + b)
  {
    var all := a + b;
    forall x, y | 0 <= x < y < |all|
      ensures all[x] != all[y]
    {
      if x < |a| <= y {
        assert all[x] in a && all[y] in b;
      }
    }
  }

  // ------------------------------------------------------------------ the varying factors of a term

  function Unrolls(ts: Term): seq<Unroll>
    decreases ts, 0
  {
    if ts == [] then [] else FactorUnrolls(ts[0]) + Unrolls(ts[1..])
  }

  function FactorUnrolls(f: Factor): seq<Unroll>
    decreases f, 0
  {
    if !f.ParenF? then []
    else if f.quant == Once then Unrolls(f.term)
    else if Varies(f) then [Unroll(f.id, f.quant.lo, f.quant.hi.value)] else []
  }

  function Ids(ts: Term): set<nat>
    decreases ts, 0
  {
    if ts == [] then {} else FactorIds(ts[0]) + Ids(ts[1..])
  }

  function FactorIds(f: Factor): set<nat>
    decreases f, 0
  {
    if f.ParenF? then {f.id} + Ids(f.term) else {}
  }

  /** Every parenthesis is a factor of its own. */
  ghost predicate DistinctIds(ts: Term)
    decreases ts, 0
  {
    ts == [] || (FactorDistinct(ts[0]) && DistinctIds(ts[1..]) && FactorIds(ts[0]) !! Ids(ts[1..]))
  }

  ghost predicate FactorDistinct(f: Factor)
    decreases f, 0
  {
    f.ParenF? ==> DistinctIds(f.term) && f.id !in Ids(f.term)
  }

  ghost predicate Agree(c: map<nat, nat>, d: map<nat, nat>, ids: set<nat>) {
    forall u :: u in ids ==> (u in c <==> u in d) && (u in c ==> c[u] == d[u])
  }

  /** A term only looks at the counts of its own factors. */
  lemma {:induction false} SameCounts(w: Walk, c: map<nat, nat>, d: map<nat, nat>, ts: Term, i: nat, j: nat)
    requires Agree(c, d, Ids(ts)) && TermMatch(w, c, ts, i, j)
    ensures TermMatch(w, d, ts, i, j)
    decreases ts, 0, 0
  {
    if ts != [] {
      var m: nat :| FactorMatch(w, c, ts[0], i, m) && TermMatch(w, c, ts[1..], m, j);
      SameCountsFactor(w, c, d, ts[0], i, m);
      SameCounts(w, c, d, ts[1..], m, j);
    }
  }

  lemma {:induction false} SameCountsFactor(w: Walk, c: map<nat, nat>, d: map<nat, nat>, f: Factor, i: nat, j: nat)
    requires Agree(c, d, FactorIds(f)) && FactorMatch(w, c, f, i, j)
    ensures FactorMatch(w, d, f, i, j)
    decreases f, 0, 0
  {
    if f.ParenF? {
      var k: nat :| Allowed(c, f, k) && Times(w, c, f.term, k, i, j);
      SameCountsTimes(w, c, d, f.term, k, i, j);
      assert Allowed(d, f, k);
    }
  }

  lemma {:induction false} SameCountsTimes(w: Walk, c: map<nat, nat>, d: map<nat, nat>, ts: Term, k: nat, i: nat, j: nat)
    requires Agree(c, d, Ids(ts)) && Times(w, c, ts, k, i, j)
    ensures Times(w, d, ts, k, i, j)
    decreases ts, 1, k
  {
    if k > 0 {
      var m: nat :| TermMatch(w, c, ts, i, m) && Times(w, c, ts, k - 1, m, j);
      SameCounts(w, c, d, ts, i, m);
      SameCountsTimes(w, c, d, ts, k - 1, m, j);
    }
  }

  // ------------------------------------------------------------------ the branches together mean the term

  /** The counts of one branch. */
  function CountsOf(us: seq<Unroll>, picks: seq<nat>): map<nat, nat>
    requires |picks| == |us|
  {
    if us == [] then map[] else CountsOf(us[1..], picks[1..])[us[0].id := picks[0]]
  }

  lemma {:induction false} CountsDomain(us: seq<Unroll>, picks: seq<nat>, u: nat)
    requires |picks| == |us|
    ensures u in CountsOf(us, picks) <==> exists x :: 0 <= x < |us| && us[x].id == u
  {
    if us != [] {
      CountsDomain(us[1..], picks[1..], u);
      if x :| 0 <= x < |us| && us[x].id == u {
        assert x > 0 ==> us[1..][x - 1].id == u;
      }
    }
  }

  lemma {:induction false} UnrollIds(ts: Term, x: nat)
    requires x < |Unrolls(ts)|
    ensures Unrolls(ts)[x].id in Ids(ts)
    decreases ts, 0
  {
    var a := FactorUnrolls(ts[0]);
    if x < |a| {
      FactorUnrollIds(ts[0], x);
    } else {
      UnrollIds(ts[1..], x - |a|);
    }
  }

  lemma {:induction false} FactorUnrollIds(f: Factor, x: nat)
    requires x < |FactorUnrolls(f)|
    ensures FactorUnrolls(f)[x].id in FactorIds(f)
    decreases f, 0
  {
    if f.quant == Once {
      UnrollIds(f.term, x);
    }
  }

  lemma {:induction false} CountsConcat(us: seq<Unroll>, a: seq<nat>, vs: seq<Unroll>, b: seq<nat>)
    requires |a| == |us| && |b| == |vs|
    ensures CountsOf(us + vs, a + b) == CountsOf(vs, b) + CountsOf(us, a)
  {
    if us == [] {
      assert us + vs == vs && a + b == b;
    } else {
      assert (us + vs)[1..] == us[1..] + vs && (a + b)[1..] == a[1..] + b;
      CountsConcat(us[1..], a[1..], vs, b);
    }
  }

  /** Counts of a factor list, and of the rest, as the two halves of one branch. */
  lemma Halves(f: Factor, ts: Term, a: seq<nat>, b: seq<nat>)
    requires |a| == |FactorUnrolls(f)| && |b| == |Unrolls(ts)| && FactorIds(f) !! Ids(ts)
    ensures var c := CountsOf(FactorUnrolls(f) + Unrolls(ts), a + b);
            Agree(c, CountsOf(FactorUnrolls(f), a), FactorIds(f)) && Agree(c, CountsOf(Unrolls(ts), b), Ids(ts))
  {
    var us, vs := FactorUnrolls(f), Unrolls(ts);
    CountsConcat(us, a, vs, b);
    forall u | u in FactorIds(f)
      ensures u !in CountsOf(vs, b)
    {
      CountsDomain(vs, b, u);
      forall x: nat | x < |vs| ensures vs[x].id in Ids(ts) { UnrollIds(ts, x); }
    }
    forall u | u in Ids(ts)
      ensures u !in CountsOf(us, a)
    {
      CountsDomain(us, a, u);
      forall x: nat | x < |us| ensures us[x].id in FactorIds(f) { FactorUnrollIds(f, x); }
    }
  }

  ghost predicate SomeBranch(w: Walk, ts: Term, i: nat, j: nat) {
    exists picks :: InBox(Unrolls(ts), picks) && TermMatch(w, CountsOf(Unrolls(ts), picks), ts, i, j)
  }

  ghost predicate SomeFactorBranch(w: Walk, f: Factor, i: nat, j: nat) {
    exists picks :: InBox(FactorUnrolls(f), picks) && FactorMatch(w, CountsOf(FactorUnrolls(f), picks), f, i, j)
  }

  /** A walk matches the term exactly if some branch matches it. */
  lemma {:induction false} BranchesCover(w: Walk, ts: Term, i: nat, j: nat)
    requires DistinctIds(ts)
    ensures TermMatch(w, map[], ts, i, j) <==> SomeBranch(w, ts, i, j)
    decreases ts, 0
  {
    if ts == [] {
      assert InBox(Unrolls(ts), []) && TermMatch(w, CountsOf(Unrolls(ts), []), ts, i, i);
    } else {
      if TermMatch(w, map[], ts, i, j) {
        var m := TermFirst(w, map[], ts, i, j);
        FactorBranches(w, ts[0], i, m);
        BranchesCover(w, ts[1..], m, j);
        JoinBranches(w, ts, i, m, j);
      }
      if SomeBranch(w, ts, i, j) {
        var m := SplitBranch(w, ts, i, j);
        FactorBranches(w, ts[0], i, m);
        BranchesCover(w, ts[1..], m, j);
      }
    }
  }

  lemma JoinBranches(w: Walk, ts: Term, i: nat, m: nat, j: nat)
    requires ts != [] && DistinctIds(ts) && SomeFactorBranch(w, ts[0], i, m) && SomeBranch(w, ts[1..], m, j)
    ensures SomeBranch(w, ts, i, j)
  {
    hide FactorMatch, Ids, FactorIds, CountsOf;
    var us, vs := FactorUnrolls(ts[0]), Unrolls(ts[1..]);
    DistinctParts(ts);
    var a :| InBox(us, a) && FactorMatch(w, CountsOf(us, a), ts[0], i, m);
    var b :| InBox(vs, b) && TermMatch(w, CountsOf(vs, b), ts[1..], m, j);
    var c := CountsOf(us + vs, a + b);
    Halves(ts[0], ts[1..], a, b);
    SameCountsFactor(w, CountsOf(us, a), c, ts[0], i, m);
    SameCounts(w, CountsOf(vs, b), c, ts[1..], m, j);
    assert InBox(us + vs, a + b);
    assert Unrolls(ts) == us + vs;
    assert TermMatch(w, c, ts, i, j);
  }

  lemma SplitBranch(w: Walk, ts: Term, i: nat, j: nat) returns (m: nat)
    requires ts != [] && DistinctIds(ts) && SomeBranch(w, ts, i, j)
    ensures SomeFactorBranch(w, ts[0], i, m) && SomeBranch(w, ts[1..], m, j)
  {
    hide FactorMatch, TermMatch, Ids, FactorIds, CountsOf, Agree;
    var us, vs := FactorUnrolls(ts[0]), Unrolls(ts[1..]);
    assert Unrolls(ts) == us + vs;
    var picks :| InBox(us + vs, picks) && TermMatch(w, CountsOf(us + vs, picks), ts, i, j);
    SplitBox(us, vs, picks);
    var a, b := picks[..|us|], picks[|us|..];
    var c := CountsOf(us + vs, a + b);
    m := TermFirst(w, c, ts, i, j);
    DistinctParts(ts);
    Halves(ts[0], ts[1..], a, b);
    SymmetricAgree(c, CountsOf(us, a), FactorIds(ts[0]));
    SymmetricAgree(c, CountsOf(vs, b), Ids(ts[1..]));
    SameCountsFactor(w, c, CountsOf(us, a), ts[0], i, m);
    SameCounts(w, c, CountsOf(vs, b), ts[1..], m, j);
  }

  lemma SymmetricAgree(c: map<nat, nat>, d: map<nat, nat>, ids: set<nat>)
    requires Agree(c, d, ids)
    ensures Agree(d, c, ids)
  {
  }

  lemma DistinctParts(ts: Term)
    requires ts != [] && DistinctIds(ts)
    ensures FactorDistinct(ts[0]) && DistinctIds(ts[1..]) && FactorIds(ts[0]) !! Ids(ts[1..])
  {
  }

  lemma SplitBox(us: seq<Unroll>, vs: seq<Unroll>, picks: seq<nat>)
    requires InBox(us + vs, picks)
    ensures |picks| == |us| + |vs| && picks == picks[..|us|] + picks[|us|..]
    ensures InBox(us, picks[..|us|]) && InBox(vs, picks[|us|..])
    ensures |picks[..|us|]| == |us| && |picks[|us|..]| == |vs|
  {
    assert forall x :: 0 <= x < |us| ==> (us + vs)[x] == us[x];
    assert forall x :: 0 <= x < |vs| ==> (us + vs)[|us| + x] == vs[x];
  }

  lemma {:induction false} FactorBranches(w: Walk, f: Factor, i: nat, j: nat)
    requires FactorDistinct(f)
    ensures FactorMatch(w, map[], f, i, j) <==> SomeFactorBranch(w, f, i, j)
    decreases f, 0
  {
    var us := FactorUnrolls(f);
    if us == [] {
      assert InBox(us, []) && CountsOf(us, []) == map[];
    } else if f.quant == Once {
      OnceMatches(w, map[], f, i, j);
      BranchesCover(w, f.term, i, j);
      assert us == Unrolls(f.term);
      hide FactorMatch, TermMatch;
      if picks :| InBox(us, picks) && FactorMatch(w, CountsOf(us, picks), f, i, j) {
        OnceMatches(w, CountsOf(us, picks), f, i, j);
      }
      if picks :| InBox(us, picks) && TermMatch(w, CountsOf(us, picks), f.term, i, j) {
        OnceMatches(w, CountsOf(us, picks), f, i, j);
      }
    } else {
      VaryingBranches(w, f, i, j);
    }
  }

  lemma OneCount(us: seq<Unroll>, picks: seq<nat>)
    requires |us| == |picks| == 1
    ensures CountsOf(us, picks) == map[us[0].id := picks[0]]
  {
    var none: seq<Unroll>, nil: seq<nat> := [], [];
    assert us[1..] == none && picks[1..] == nil && CountsOf(none, nil) == map[];
  }

  /** A varying factor: its interior does not look at its own count. */
  lemma VaryingBranches(w: Walk, f: Factor, i: nat, j: nat)
    requires f.ParenF? && f.quant != Once && Varies(f) && FactorDistinct(f)
    ensures FactorMatch(w, map[], f, i, j) <==> SomeFactorBranch(w, f, i, j)
  {
    hide Times;
    var us := FactorUnrolls(f);
    if FactorMatch(w, map[], f, i, j) {
      var k: nat :| Allowed(map[], f, k) && Times(w, map[], f.term, k, i, j);
      var c := CountsOf(us, [k]);
      OneCount(us, [k]);
      assert InBox(us, [k]) && c == map[f.id := k];
      SameCountsTimes(w, map[], c, f.term, k, i, j);
      assert Allowed(c, f, k);
    }
    if picks :| InBox(us, picks) && FactorMatch(w, CountsOf(us, picks), f, i, j) {
      var c := CountsOf(us, picks);
      OneCount(us, picks);
      assert c == map[f.id := picks[0]];
      var k: nat :| Allowed(c, f, k) && Times(w, c, f.term, k, i, j);
      SameCountsTimes(w, c, map[], f.term, k, i, j);
      assert Allowed(map[], f, k);
    }
  }
}
