/** Finite sums of integers over 0..n-1. */
module Sums {
  ghost function Sum(n: nat, f: nat -> int): int {
    if n == 0 then 0 else Sum(n - 1, f) + f(n - 1)
  }

  lemma {:induction false} SumEq(n: nat, f: nat -> int, g: nat -> int)
    requires forall i: nat :: i < n ==> f(i) == g(i)
    ensures Sum(n, f) == Sum(n, g)
  {
    if n > 0 {
      SumEq(n - 1, f, g);
    }
  }

  lemma {:induction false} SumZero(n: nat, f: nat -> int)
    requires forall i: nat :: i < n ==> f(i) == 0
    ensures Sum(n, f) == 0
  {
    if n > 0 {
      SumZero(n - 1, f);
    }
  }

  lemma {:induction false} SumPlus(n: nat, f: nat -> int, g: nat -> int, h: nat -> int)
    requires forall i: nat :: i < n ==> h(i) == f(i) + g(i)
    ensures Sum(n, h) == Sum(n, f) + Sum(n, g)
  {
    if n > 0 {
      SumPlus(n - 1, f, g, h);
    }
  }

  lemma {:induction false} SumHit(n: nat, c: nat, f: nat -> int)
    requires forall i: nat :: i < n && i != c ==> f(i) == 0
    ensures Sum(n, f) == if c < n then f(c) else 0
  {
    if n > 0 {
      SumHit(n - 1, c, f);
    }
  }

  lemma {:induction false} SumNonneg(n: nat, f: nat -> int)
    requires forall i: nat :: i < n ==> f(i) >= 0
    ensures Sum(n, f) >= 0 && forall i: nat :: i < n ==> f(i) <= Sum(n, f)
  {
    if n > 0 {
      SumNonneg(n - 1, f);
    }
  }

  ghost function Row(m: nat, F: (nat, nat) -> int): (r: nat -> int)
    ensures forall i: nat :: r(i) == Sum(m, (j: nat) => F(i, j))
  {
    (i: nat) => Sum(m, (j: nat) => F(i, j))
  }

  ghost function Flip(F: (nat, nat) -> int): (r: (nat, nat) -> int)
    ensures forall j: nat, i: nat :: r(j, i) == F(i, j)
  {
    (j: nat, i: nat) => F(i, j)
  }

  /** Order of summation does not matter. */
  lemma {:induction false} SumSwap(n: nat, m: nat, F: (nat, nat) -> int)
    ensures Sum(n, Row(m, F)) == Sum(m, Row(n, Flip(F)))
  {
    if n == 0 {
      SumZero(m, Row(0, Flip(F)));
    } else {
      SumSwap(n - 1, m, F);
      var last: nat -> int := (j: nat) => F(n - 1, j);
      SumPlus(m, Row(n - 1, Flip(F)), last, Row(n, Flip(F))) by {
        forall j: nat | j < m
          ensures Row(n, Flip(F))(j) == Row(n - 1, Flip(F))(j) + last(j)
        {
          var col: nat -> int := (i: nat) => Flip(F)(j, i);
          SumEq(n - 1, col, (i: nat) => Flip(F)(j, i));
        }
      }
      SumEq(m, last, (j: nat) => F(n - 1, j));
    }
  }
}

/** Modularity of a labelling of a weighted graph, given by its weight matrix: what it is, what merging
    communities into nodes does to it, and what moving one node does to it. */
module Modularities {
  import opened Sums

  type Matrix = (nat, nat) -> int
  type Labels = nat -> int

  ghost function Pick(b: bool, x: int): int {
    if b then x else 0
  }

  ghost function Sum2(n: nat, F: Matrix): int {
    Sum(n, Row(n, F))
  }

  /** Weighted degrees: the row sums. */
  ghost function Degrees(n: nat, W: Matrix): nat -> int {
    Row(n, W)
  }

  /** Twice the total edge weight. */
  ghost function Total(n: nat, W: Matrix): int {
    Sum2(n, W)
  }

  ghost function Inside(W: Matrix, L: Labels): (r: Matrix)
    ensures forall u: nat, v: nat :: r(u, v) == Pick(L(u) == L(v), W(u, v))
  {
    (u: nat, v: nat) => Pick(L(u) == L(v), W(u, v))
  }

  /** Weight of the edges inside communities, both directions. */
  ghost function Intra(n: nat, W: Matrix, L: Labels): int {
    Sum2(n, Inside(W, L))
  }

  ghost function OfClass(L: Labels, m: nat -> int, c: int): (r: nat -> int)
    ensures forall u: nat :: r(u) == Pick(L(u) == c, m(u))
  {
    (u: nat) => Pick(L(u) == c, m(u))
  }

  /** Sum of m over the members of community c. */
  ghost function Mass(n: nat, m: nat -> int, L: Labels, c: int): int {
    Sum(n, OfClass(L, m, c))
  }

  /** Weighted degree of a community. */
  ghost function CommDeg(n: nat, W: Matrix, L: Labels, c: int): int {
    Mass(n, Degrees(n, W), L, c)
  }

  ghost function Square(x: int): int {
    x * x
  }

  ghost function Squares(n: nat, W: Matrix, L: Labels): (r: nat -> int)
    ensures forall c: nat :: r(c) == Square(CommDeg(n, W, L, c))
  {
    (c: nat) => Square(CommDeg(n, W, L, c))
  }

  /** Squared community degrees, over the communities 0..k-1. */
  ghost function SumSq(n: nat, W: Matrix, L: Labels, k: nat): int {
    Sum(k, Squares(n, W, L))
  }

  ghost function Score(intra: int, sq: int, total: int): real
    requires total > 0
  {
    intra as real / total as real - sq as real / (total as real * total as real)
  }

  ghost function Modularity(n: nat, W: Matrix, L: Labels, k: nat): real
    requires Total(n, W) > 0
  {
    Score(Intra(n, W, L), SumSq(n, W, L, k), Total(n, W))
  }

  ghost predicate Symmetric(n: nat, W: Matrix) {
    forall u: nat, v: nat :: u < n && v < n ==> W(u, v) == W(v, u)
  }

  // ------------------------------------------------------------------ double sums

  lemma Sum2Eq(n: nat, F: Matrix, G: Matrix)
    requires forall u: nat, v: nat :: u < n && v < n ==> F(u, v) == G(u, v)
    ensures Sum2(n, F) == Sum2(n, G)
  {
    forall u: nat | u < n
      ensures Row(n, F)(u) == Row(n, G)(u)
    {
      SumEq(n, (v: nat) => F(u, v), (v: nat) => G(u, v));
    }
    SumEq(n, Row(n, F), Row(n, G));
  }

  lemma Sum2Plus(n: nat, F: Matrix, G: Matrix, H: Matrix)
    requires forall u: nat, v: nat :: u < n && v < n ==> H(u, v) == F(u, v) + G(u, v)
    ensures Sum2(n, H) == Sum2(n, F) + Sum2(n, G)
  {
    forall u: nat | u < n
      ensures Row(n, H)(u) == Row(n, F)(u) + Row(n, G)(u)
    {
      SumPlus(n, (v: nat) => F(u, v), (v: nat) => G(u, v), (v: nat) => H(u, v));
    }
    SumPlus(n, Row(n, F), Row(n, G), Row(n, H));
  }

  lemma Sum2Zero(n: nat, F: Matrix)
    requires forall u: nat, v: nat :: u < n && v < n ==> F(u, v) == 0
    ensures Sum2(n, F) == 0
  {
    forall u: nat | u < n
      ensures Row(n, F)(u) == 0
    {
      SumZero(n, (v: nat) => F(u, v));
    }
    SumZero(n, Row(n, F));
  }

  lemma {:induction false} SumMonotone(n: nat, f: nat -> int, g: nat -> int)
    requires forall i: nat :: i < n ==> 0 <= f(i) <= g(i)
    ensures 0 <= Sum(n, f) <= Sum(n, g)
  {
    if n > 0 {
      SumMonotone(n - 1, f, g);
    }
  }

  lemma Sum2Monotone(n: nat, F: Matrix, G: Matrix)
    requires forall u: nat, v: nat :: u < n && v < n ==> 0 <= F(u, v) <= G(u, v)
    ensures 0 <= Sum2(n, F) <= Sum2(n, G)
  {
    forall u: nat | u < n
      ensures 0 <= Row(n, F)(u) <= Row(n, G)(u)
    {
      SumMonotone(n, (v: nat) => F(u, v), (v: nat) => G(u, v));
    }
    SumMonotone(n, Row(n, F), Row(n, G));
  }

  ghost function Keyed(key: Matrix, F: Matrix, c: int): (r: Matrix)
    ensures forall u: nat, v: nat :: r(u, v) == Pick(key(u, v) == c, F(u, v))
  {
    (u: nat, v: nat) => Pick(key(u, v) == c, F(u, v))
  }

  ghost function Below(key: Matrix, F: Matrix, k: nat): (r: Matrix)
    ensures forall u: nat, v: nat :: r(u, v) == Pick(0 <= key(u, v) < k, F(u, v))
  {
    (u: nat, v: nat) => Pick(0 <= key(u, v) < k, F(u, v))
  }

  /** Splitting a double sum by a key below k and adding the parts up again. */
  lemma {:induction false} Classes2(n: nat, k: nat, key: Matrix, F: Matrix, parts: nat -> int)
    requires forall c: nat :: c < k ==> parts(c) == Sum2(n, Keyed(key, F, c))
    ensures Sum(k, parts) == Sum2(n, Below(key, F, k))
  {
    if k == 0 {
      Sum2Zero(n, Below(key, F, 0));
    } else {
      Classes2(n, k - 1, key, F, parts);
      hide Sum2;
      forall u: nat, v: nat
        ensures Below(key, F, k)(u, v) == Below(key, F, k - 1)(u, v) + Keyed(key, F, k - 1)(u, v)
      {
      }
      Sum2Plus(n, Below(key, F, k - 1), Keyed(key, F, k - 1), Below(key, F, k));
    }
  }

  ghost function BelowOne(L: Labels, m: nat -> int, k: nat): (r: nat -> int)
    ensures forall u: nat :: r(u) == Pick(0 <= L(u) < k, m(u))
  {
    (u: nat) => Pick(0 <= L(u) < k, m(u))
  }

  /** The communities below k share out the mass of their members. */
  lemma {:induction false} Classes(n: nat, k: nat, L: Labels, m: nat -> int, parts: nat -> int)
    requires forall c: nat :: c < k ==> parts(c) == Mass(n, m, L, c)
    ensures Sum(k, parts) == Sum(n, BelowOne(L, m, k))
  {
    if k == 0 {
      SumZero(n, BelowOne(L, m, 0));
    } else {
      Classes(n, k - 1, L, m, parts);
      forall u: nat
        ensures BelowOne(L, m, k)(u) == BelowOne(L, m, k - 1)(u) + OfClass(L, m, k - 1)(u)
      {
      }
      SumPlus(n, BelowOne(L, m, k - 1), OfClass(L, m, k - 1), BelowOne(L, m, k));
    }
  }

  // ------------------------------------------------------------------ merging communities into nodes

  ghost function Between(W: Matrix, L: Labels, c: int, d: int): (r: Matrix)
    ensures forall u: nat, v: nat :: r(u, v) == Pick(L(u) == c && L(v) == d, W(u, v))
  {
    (u: nat, v: nat) => Pick(L(u) == c && L(v) == d, W(u, v))
  }

  /** The aggregated matrix: between communities c and d lies the weight of all edges between members. */
  ghost function Aggregate(n: nat, W: Matrix, L: Labels): (r: Matrix)
    ensures forall c: nat, d: nat :: r(c, d) == Sum2(n, Between(W, L, c, d))
  {
    (c: nat, d: nat) => Sum2(n, Between(W, L, c, d))
  }

  /** Only nodes without edges may lack a community below k. */
  ghost predicate Labelled(n: nat, W: Matrix, L: Labels, k: nat) {
    forall u: nat, v: nat :: u < n && v < n && W(u, v) != 0 ==> 0 <= L(u) < k && 0 <= L(v) < k
  }

  lemma AggregateSymmetric(n: nat, W: Matrix, L: Labels, c: nat, d: nat)
    requires Symmetric(n, W)
    ensures Aggregate(n, W, L)(c, d) == Aggregate(n, W, L)(d, c)
  {
    SumSwap(n, n, Between(W, L, c, d));
    Sum2Eq(n, Flip(Between(W, L, c, d)), Between(W, L, d, c));
  }

  ghost function KeyLeft(L: Labels): (r: Matrix)
    ensures forall u: nat, v: nat :: r(u, v) == L(u)
  {
    (u: nat, v: nat) => L(u)
  }

  ghost function KeyRight(L: Labels): (r: Matrix)
    ensures forall u: nat, v: nat :: r(u, v) == L(v)
  {
    (u: nat, v: nat) => L(v)
  }

  ghost function LeftIn(W: Matrix, L: Labels, c: int): (r: Matrix)
    ensures forall u: nat, v: nat :: r(u, v) == Pick(L(u) == c, W(u, v))
  {
    (u: nat, v: nat) => Pick(L(u) == c, W(u, v))
  }

  /** The degree of a merged node is the degree of its community. */
  lemma AggregateDegree(n: nat, W: Matrix, L: Labels, k: nat, c: nat)
    requires Labelled(n, W, L, k)
    ensures Degrees(k, Aggregate(n, W, L))(c) == CommDeg(n, W, L, c)
  {
    var A, F := Aggregate(n, W, L), LeftIn(W, L, c);
    var parts: nat -> int := (d: nat) => A(c, d);
    forall d: nat | d < k
      ensures parts(d) == Sum2(n, Keyed(KeyRight(L), F, d))
    {
      forall u: nat, v: nat
        ensures Between(W, L, c, d)(u, v) == Keyed(KeyRight(L), F, d)(u, v)
      {
      }
      Sum2Eq(n, Between(W, L, c, d), Keyed(KeyRight(L), F, d));
    }
    Classes2(n, k, KeyRight(L), F, parts);
    SumEq(k, parts, (d: nat) => A(c, d));
    Sum2Eq(n, Below(KeyRight(L), F, k), F);
    forall u: nat | u < n
      ensures Row(n, F)(u) == OfClass(L, Degrees(n, W), c)(u)
    {
      if L(u) == c {
        SumEq(n, (v: nat) => F(u, v), (v: nat) => W(u, v));
      } else {
        SumZero(n, (v: nat) => F(u, v));
      }
    }
    SumEq(n, Row(n, F), OfClass(L, Degrees(n, W), c));
  }

  lemma UnlabelledDegree(n: nat, W: Matrix, L: Labels, k: nat, u: nat)
    requires Labelled(n, W, L, k) && u < n && !(0 <= L(u) < k)
    ensures Degrees(n, W)(u) == 0
  {
    SumZero(n, (v: nat) => W(u, v));
  }

  /** Total weight survives the merge. */
  lemma AggregateTotal(n: nat, W: Matrix, L: Labels, k: nat)
    requires Labelled(n, W, L, k)
    ensures Total(k, Aggregate(n, W, L)) == Total(n, W)
  {
    var parts := Row(k, Aggregate(n, W, L));
    forall c: nat | c < k
      ensures parts(c) == Mass(n, Degrees(n, W), L, c)
    {
      AggregateDegree(n, W, L, k, c);
    }
    Classes(n, k, L, Degrees(n, W), parts);
    forall u: nat | u < n
      ensures BelowOne(L, Degrees(n, W), k)(u) == Degrees(n, W)(u)
    {
      if !(0 <= L(u) < k) {
        UnlabelledDegree(n, W, L, k, u);
      }
    }
    SumEq(n, BelowOne(L, Degrees(n, W), k), Row(n, W));
  }

  /** Labels of the original nodes through the labels of the nodes they were merged into. */
  ghost function Through(L: Labels, M: Labels): (r: Labels)
    ensures forall u: nat :: r(u) == if L(u) >= 0 then M(L(u)) else L(u)
  {
    (u: nat) => if L(u) >= 0 then M(L(u)) else L(u)
  }

  /** A community of merged nodes has the degree of all original nodes in it. */
  lemma AggregateCommDeg(n: nat, W: Matrix, L: Labels, k: nat, M: Labels, x: int)
    requires Labelled(n, W, L, k)
    ensures CommDeg(k, Aggregate(n, W, L), M, x) == CommDeg(n, W, Through(L, M), x)
  {
    var A, D, T := Aggregate(n, W, L), Degrees(n, W), Through(L, M);
    var f := OfClass(T, D, x);
    var parts := OfClass(M, Degrees(k, A), x);
    forall c: nat | c < k
      ensures parts(c) == Mass(n, f, L, c)
    {
      AggregateDegree(n, W, L, k, c);
      if M(c) == x {
        SumEq(n, OfClass(L, D, c), OfClass(L, f, c));
      } else {
        SumZero(n, OfClass(L, f, c));
      }
    }
    Classes(n, k, L, f, parts);
    forall u: nat | u < n
      ensures BelowOne(L, f, k)(u) == f(u)
    {
      if !(0 <= L(u) < k) {
        UnlabelledDegree(n, W, L, k, u);
      }
    }
    SumEq(n, BelowOne(L, f, k), f);
  }

  /** Edges inside communities of merged nodes are the original edges inside them. */
  lemma AggregateIntra(n: nat, W: Matrix, L: Labels, k: nat, M: Labels)
    requires Labelled(n, W, L, k)
    ensures Intra(k, Aggregate(n, W, L), M) == Intra(n, W, Through(L, M))
  {
    var A := Aggregate(n, W, L);
    var H := Inside(W, Through(L, M));
    var G := Below(KeyRight(L), H, k);
    var rows := Row(k, Inside(A, M));
    forall c: nat | c < k
      ensures rows(c) == Sum2(n, Keyed(KeyLeft(L), G, c))
    {
      IntraRow(n, W, L, k, M, c);
    }
    Classes2(n, k, KeyLeft(L), G, rows);
    Sum2Eq(n, Below(KeyLeft(L), G, k), H);
  }

  lemma IntraRow(n: nat, W: Matrix, L: Labels, k: nat, M: Labels, c: nat)
    requires Labelled(n, W, L, k) && c < k
    ensures Row(k, Inside(Aggregate(n, W, L), M))(c) ==
            Sum2(n, Keyed(KeyLeft(L), Below(KeyRight(L), Inside(W, Through(L, M)), k), c))
  {
    var A := Aggregate(n, W, L);
    var H := Inside(W, Through(L, M));
    var K := Keyed(KeyLeft(L), H, c);
    var parts: nat -> int := (d: nat) => Inside(A, M)(c, d);
    forall d: nat | d < k
      ensures parts(d) == Sum2(n, Keyed(KeyRight(L), K, d))
    {
      forall u: nat, v: nat
        ensures Keyed(KeyRight(L), K, d)(u, v) == Pick(M(c) == M(d), Between(W, L, c, d)(u, v))
      {
      }
      assert parts(d) == Inside(A, M)(c, d);
      if M(c) == M(d) {
        Sum2Eq(n, Between(W, L, c, d), Keyed(KeyRight(L), K, d));
      } else {
        Sum2Zero(n, Keyed(KeyRight(L), K, d));
      }
    }
    Classes2(n, k, KeyRight(L), K, parts);
    SumEq(k, parts, (d: nat) => Inside(A, M)(c, d));
    forall u: nat, v: nat
      ensures Below(KeyRight(L), K, k)(u, v) == Keyed(KeyLeft(L), Below(KeyRight(L), H, k), c)(u, v)
    {
    }
    Sum2Eq(n, Below(KeyRight(L), K, k), Keyed(KeyLeft(L), Below(KeyRight(L), H, k), c));
  }

  /** Merging communities into nodes preserves the modularity of every labelling of the merged graph. */
  lemma AggregatePreservesModularity(n: nat, W: Matrix, L: Labels, k: nat, M: Labels, K: nat)
    requires Labelled(n, W, L, k) && Total(n, W) > 0
    ensures Total(k, Aggregate(n, W, L)) == Total(n, W)
    ensures Modularity(k, Aggregate(n, W, L), M, K) == Modularity(n, W, Through(L, M), K)
  {
    var A := Aggregate(n, W, L);
    AggregateTotal(n, W, L, k);
    AggregateIntra(n, W, L, k, M);
    forall c: nat | c < K
      ensures Squares(k, A, M)(c) == Squares(n, W, Through(L, M))(c)
    {
      AggregateCommDeg(n, W, L, k, M, c);
    }
    SumEq(K, Squares(k, A, M), Squares(n, W, Through(L, M)));
  }

  // ------------------------------------------------------------------ moving one node

  ghost function Moved(L: Labels, u: nat, d: int): (r: Labels)
    ensures forall v: nat :: r(v) == if v == u then d else L(v)
  {
    (v: nat) => if v == u then d else L(v)
  }

  /** Weight of u's edges to the other members of community c. */
  ghost function Toward(n: nat, W: Matrix, L: Labels, u: nat, c: int): int {
    Sum(n, Others(W, L, u, c))
  }

  ghost function Others(W: Matrix, L: Labels, u: nat, c: int): (r: nat -> int)
    ensures forall v: nat :: r(v) == Pick(v != u && L(v) == c, W(u, v))
  {
    (v: nat) => Pick(v != u && L(v) == c, W(u, v))
  }

  ghost function OnlyRow(F: Matrix, u: nat): (r: Matrix)
    ensures forall x: nat, v: nat :: r(x, v) == Pick(x == u, F(x, v))
  {
    (x: nat, v: nat) => Pick(x == u, F(x, v))
  }

  lemma Sum2OnlyRow(n: nat, F: Matrix, u: nat)
    requires u < n
    ensures Sum2(n, OnlyRow(F, u)) == Row(n, F)(u)
  {
    var R := OnlyRow(F, u);
    forall x: nat | x < n && x != u
      ensures Row(n, R)(x) == 0
    {
      SumZero(n, (v: nat) => R(x, v));
    }
    SumHit(n, u, Row(n, R));
    SumEq(n, (v: nat) => R(u, v), (v: nat) => F(u, v));
  }

  ghost function Change(W: Matrix, L: Labels, u: nat, d: int): (r: Matrix)
    ensures forall x: nat, v: nat :: r(x, v) == Inside(W, Moved(L, u, d))(x, v) - Inside(W, L)(x, v)
  {
    (x: nat, v: nat) => Inside(W, Moved(L, u, d))(x, v) - Inside(W, L)(x, v)
  }

  /** Moving u changes the weight inside communities by twice the difference of its ties. */
  lemma MoveIntra(n: nat, W: Matrix, L: Labels, u: nat, d: int)
    requires Symmetric(n, W) && u < n && L(u) != d
    ensures Intra(n, W, Moved(L, u, d)) - Intra(n, W, L) == 2 * (Toward(n, W, L, u, d) - Toward(n, W, L, u, L(u)))
  {
    hide Sum, Change, OnlyRow, Toward;
    var C := Change(W, L, u, d);
    ChangeAdds(n, W, L, u, d);
    ChangeSplits(n, W, L, u, d);
    Sum2OnlyRow(n, C, u);
    Sum2OnlyRow(n, Flip(C), u);
    ChangeRow(n, W, L, u, d);
  }

  lemma ChangeAdds(n: nat, W: Matrix, L: Labels, u: nat, d: int)
    ensures Intra(n, W, Moved(L, u, d)) == Sum2(n, Change(W, L, u, d)) + Intra(n, W, L)
  {
    Sum2Plus(n, Change(W, L, u, d), Inside(W, L), Inside(W, Moved(L, u, d)));
  }

  /** Only u's row and u's column change. */
  lemma ChangeSplits(n: nat, W: Matrix, L: Labels, u: nat, d: int)
    requires u < n && L(u) != d
    ensures var C := Change(W, L, u, d);
            Sum2(n, C) == Sum2(n, OnlyRow(C, u)) + Sum2(n, OnlyRow(Flip(C), u))
  {
    var C := Change(W, L, u, d);
    var R, S := OnlyRow(C, u), OnlyRow(Flip(C), u);
    hide Sum2;
    forall x: nat, v: nat
      ensures C(x, v) == R(x, v) + Flip(S)(x, v)
    {
      assert Flip(S)(x, v) == S(v, x) == Pick(v == u, Flip(C)(v, x));
    }
    Sum2Plus(n, R, Flip(S), C);
    Sum2Flips(n, S);
  }

  lemma Sum2Flips(n: nat, F: Matrix)
    ensures Sum2(n, Flip(F)) == Sum2(n, F)
  {
    SumSwap(n, n, F);
  }

  /** u's row and u's column change by the same amount. */
  lemma ChangeRow(n: nat, W: Matrix, L: Labels, u: nat, d: int)
    requires Symmetric(n, W) && u < n && L(u) != d
    ensures var C := Change(W, L, u, d);
            Row(n, C)(u) == Row(n, Flip(C))(u) == Toward(n, W, L, u, d) - Toward(n, W, L, u, L(u))
  {
    var C := Change(W, L, u, d);
    forall v: nat | v < n
      ensures Flip(C)(u, v) == C(u, v)
    {
      assert W(u, v) == W(v, u);
      assert Flip(C)(u, v) == C(v, u) == Inside(W, Moved(L, u, d))(v, u) - Inside(W, L)(v, u);
    }
    SumEq(n, (v: nat) => Flip(C)(u, v), (v: nat) => C(u, v));
    SumPlus(n, Others(W, L, u, L(u)), (v: nat) => C(u, v), Others(W, L, u, d));
  }

  ghost function Single(u: nat, x: int): (r: nat -> int)
    ensures forall v: nat :: r(v) == Pick(v == u, x)
  {
    (v: nat) => Pick(v == u, x)
  }

  lemma MoveMass(n: nat, m: nat -> int, L: Labels, u: nat, d: int, c: int)
    requires u < n && L(u) != d
    ensures Mass(n, m, Moved(L, u, d), c) == Mass(n, m, L, c) + Pick(c == d, m(u)) - Pick(c == L(u), m(u))
  {
    var one := Single(u, Pick(c == d, m(u)) - Pick(c == L(u), m(u)));
    SumHit(n, u, one);
    SumPlus(n, OfClass(L, m, c), one, OfClass(Moved(L, u, d), m, c));
  }

  lemma SquareStep(a: int, b: int, m: int)
    ensures Square(a - m) + Square(b + m) - Square(a) - Square(b) == 2 * m * (b - (a - m))
  {
  }

  /** Moving u from community c to d changes the squared degrees by 2 deg(u) (D(d) - (D(c) - deg(u))). */
  lemma MoveSumSq(n: nat, W: Matrix, L: Labels, u: nat, d: nat, k: nat)
    requires u < n && L(u) != d && d < k && 0 <= L(u) < k
    ensures SumSq(n, W, Moved(L, u, d), k) - SumSq(n, W, L, k) ==
            2 * Degrees(n, W)(u) * (CommDeg(n, W, L, d) - (CommDeg(n, W, L, L(u)) - Degrees(n, W)(u)))
  {
    hide Mass, Degrees, Square, Sum;
    var c: nat, m, M := L(u), Degrees(n, W)(u), Moved(L, u, d);
    var a, b := CommDeg(n, W, L, c), CommDeg(n, W, L, d);
    var f, g := Single(c, Square(a - m) - Square(a)), Single(d, Square(b + m) - Square(b));
    var h := Both(f, g);
    forall x: nat | x < k
      ensures Squares(n, W, M)(x) == Squares(n, W, L)(x) + h(x)
    {
      MoveMass(n, Degrees(n, W), L, u, d, x);
    }
    SumPlus(k, Squares(n, W, L), h, Squares(n, W, M));
    SumPlus(k, f, g, h);
    SumHit(k, c, f);
    SumHit(k, d, g);
    SquareStep(a, b, m);
  }

  ghost function Both(f: nat -> int, g: nat -> int): (r: nat -> int)
    ensures forall x: nat :: r(x) == f(x) + g(x)
  {
    (x: nat) => f(x) + g(x)
  }

  /** The gain the iteration computes from u's ties to the new and the old community (without itself),
      its degree, the total weight 2m, and the degrees of both communities (the old one without u). */
  function ModGain(newIntra: int, prevIntra: int, degree: int, total: int, newDeg: int, prevDeg: int): real
    requires total > 0
  {
    var modularityConstant := 1.0 / total as real;
    var changeIntraWeights := 2.0 * (newIntra as real - prevIntra as real);
    var changeSumWeightedDegrees := 2.0 * degree as real * modularityConstant * (newDeg as real - prevDeg as real);
    changeIntraWeights - changeSumWeightedDegrees
  }

  /** The gain for moving u from its community to d, on the true values of the graph. */
  ghost function TrueGain(n: nat, W: Matrix, L: Labels, u: nat, d: nat): real
    requires Total(n, W) > 0
  {
    ModGain(Toward(n, W, L, u, d), Toward(n, W, L, u, L(u)), Degrees(n, W)(u), Total(n, W),
            CommDeg(n, W, L, d), CommDeg(n, W, L, L(u)) - Degrees(n, W)(u))
  }

  /** It is 2m times the exact change of modularity. */
  lemma ModGainExact(n: nat, W: Matrix, L: Labels, u: nat, d: nat, k: nat)
    requires Symmetric(n, W) && u < n && L(u) != d && d < k && 0 <= L(u) < k && Total(n, W) > 0
    ensures TrueGain(n, W, L, u, d)
         == Total(n, W) as real * (Modularity(n, W, Moved(L, u, d), k) - Modularity(n, W, L, k))
  {
    hide Intra, SumSq, Toward, CommDeg, Total, Degrees, ModGain, Score;
    MoveIntra(n, W, L, u, d);
    MoveSumSq(n, W, L, u, d, k);
    var m, a, b := Degrees(n, W)(u), Toward(n, W, L, u, d), Toward(n, W, L, u, L(u));
    var nd, pd, t := CommDeg(n, W, L, d), CommDeg(n, W, L, L(u)) - m, Total(n, W);
    ScoreDifference(Intra(n, W, L), SumSq(n, W, L, k), t, a - b, m, nd - pd);
    GainOnInts(a, b, m, t, nd, pd);
  }

  lemma GainOnInts(a: int, b: int, m: int, t: int, nd: int, pd: int)
    requires t > 0
    ensures ModGain(a, b, m, t, nd, pd)
         == 2.0 * (a - b) as real - 2.0 * m as real * (1.0 / t as real) * (nd - pd) as real
  {
    assert (a - b) as real == a as real - b as real && (nd - pd) as real == nd as real - pd as real;
  }

  lemma ScoreDifference(intra: int, sq: int, total: int, x: int, m: int, y: int)
    requires total > 0
    ensures total as real * (Score(intra + 2 * x, sq + 2 * m * y, total) - Score(intra, sq, total))
         == 2.0 * x as real - 2.0 * m as real * (1.0 / total as real) * y as real
  {
    var t := total as real;
    assert (intra + 2 * x) as real / t == intra as real / t + 2.0 * x as real / t;
    assert (2 * m * y) as real == 2.0 * m as real * y as real;
    assert (sq + 2 * m * y) as real / (t * t) == sq as real / (t * t) + 2.0 * m as real * y as real / (t * t);
    assert t * (2.0 * x as real / t) == 2.0 * x as real;
    var z := 2.0 * m as real * y as real;
    assert t * (z / (t * t)) == z * (1.0 / t);
  }

  // ------------------------------------------------------------------ the community names do not matter

  ghost function Pairs(n: nat, W: Matrix): (r: Matrix)
    ensures forall u: nat, v: nat :: r(u, v) == Degrees(n, W)(u) * Degrees(n, W)(v)
  {
    (u: nat, v: nat) => Degrees(n, W)(u) * Degrees(n, W)(v)
  }

  lemma {:induction false} SumScaled(n: nat, f: nat -> int, x: int, g: nat -> int)
    requires forall i: nat :: i < n ==> g(i) == x * f(i)
    ensures Sum(n, g) == x * Sum(n, f)
  {
    if n > 0 {
      SumScaled(n - 1, f, x, g);
    }
  }

  ghost function Products(f: nat -> int): (r: Matrix)
    ensures forall u: nat, v: nat :: r(u, v) == f(u) * f(v)
  {
    (u: nat, v: nat) => f(u) * f(v)
  }

  lemma SquareOfSum(n: nat, f: nat -> int)
    ensures Square(Sum(n, f)) == Sum2(n, Products(f))
  {
    var x := Sum(n, f);
    forall u: nat | u < n
      ensures Row(n, Products(f))(u) == x * f(u)
    {
      var y := f(u);
      assert forall v: nat :: Products(f)(u, v) == y * f(v);
      SumScaled(n, f, y, (v: nat) => Products(f)(u, v));
    }
    SumScaled(n, f, x, Row(n, Products(f)));
  }

  ghost function SharedKey(L: Labels): (r: Matrix)
    ensures forall u: nat, v: nat :: r(u, v) == if L(u) == L(v) then L(u) else -1
  {
    (u: nat, v: nat) => if L(u) == L(v) then L(u) else -1
  }

  /** The squared community degrees, pair by pair: only which nodes share a community matters. */
  lemma SumSqByPairs(n: nat, W: Matrix, L: Labels, k: nat)
    requires Labelled(n, W, L, k)
    ensures SumSq(n, W, L, k) == Sum2(n, Inside(Pairs(n, W), L))
  {
    var D, P := Degrees(n, W), Pairs(n, W);
    forall c: nat | c < k
      ensures Squares(n, W, L)(c) == Sum2(n, Keyed(SharedKey(L), P, c))
    {
      SquareOfSum(n, OfClass(L, D, c));
      SamePairs(n, W, L, c);
    }
    Classes2(n, k, SharedKey(L), P, Squares(n, W, L));
    forall u: nat, v: nat | u < n && v < n
      ensures Below(SharedKey(L), P, k)(u, v) == Inside(P, L)(u, v)
    {
      if !(0 <= L(u) < k) {
        UnlabelledDegree(n, W, L, k, u);
      }
    }
    Sum2Eq(n, Below(SharedKey(L), P, k), Inside(P, L));
  }

  lemma PairsBound(n: nat, W: Matrix, L: Labels)
    requires forall u: nat :: u < n ==> Degrees(n, W)(u) >= 0
    ensures 0 <= Sum2(n, Inside(Pairs(n, W), L)) <= Sum2(n, Pairs(n, W))
  {
    hide Degrees, Sum2;
    var D, P := Degrees(n, W), Pairs(n, W);
    forall u: nat, v: nat | u < n && v < n
      ensures 0 <= Inside(P, L)(u, v) <= P(u, v)
    {
      TimesNonneg(D(u), D(v));
    }
    Sum2Monotone(n, Inside(P, L), P);
  }

  lemma TimesNonneg(a: int, b: int)
    requires a >= 0 && b >= 0
    ensures a * b >= 0
  {
  }

  lemma PairsTotal(n: nat, W: Matrix)
    ensures Sum2(n, Pairs(n, W)) == Square(Total(n, W))
  {
    hide Square;
    SquareOfSum(n, Degrees(n, W));
    Sum2Eq(n, Products(Degrees(n, W)), Pairs(n, W));
  }

  /** Squared community degrees add up to no more than the squared total. */
  lemma SumSqBound(n: nat, W: Matrix, L: Labels, k: nat)
    requires Labelled(n, W, L, k) && forall u: nat :: u < n ==> Degrees(n, W)(u) >= 0
    ensures 0 <= SumSq(n, W, L, k) <= Square(Total(n, W))
  {
    hide Degrees, Sum2, SumSq, Square, Total, Labelled, Inside, Pairs;
    SumSqByPairs(n, W, L, k);
    PairsBound(n, W, L);
    PairsTotal(n, W);
  }

  lemma SamePairs(n: nat, W: Matrix, L: Labels, c: nat)
    ensures Sum2(n, Products(OfClass(L, Degrees(n, W), c))) == Sum2(n, Keyed(SharedKey(L), Pairs(n, W), c))
  {
    hide Sum2, Degrees;
    forall u: nat, v: nat
      ensures Products(OfClass(L, Degrees(n, W), c))(u, v) == Keyed(SharedKey(L), Pairs(n, W), c)(u, v)
    {
    }
    Sum2Eq(n, Products(OfClass(L, Degrees(n, W), c)), Keyed(SharedKey(L), Pairs(n, W), c));
  }

  /** Two labellings that join the same nodes with edges score the same. */
  lemma SamePartitionSameScore(n: nat, W: Matrix, L: Labels, k: nat, M: Labels, K: nat)
    requires Total(n, W) > 0 && Labelled(n, W, L, k) && Labelled(n, W, M, K) && Symmetric(n, W)
    requires forall u: nat, v: nat :: u < n && v < n && Degrees(n, W)(u) != 0 && Degrees(n, W)(v) != 0 ==>
               (L(u) == L(v) <==> M(u) == M(v))
    requires forall u: nat, v: nat :: u < n && v < n && W(u, v) != 0 ==> (L(u) == L(v) <==> M(u) == M(v))
    ensures Modularity(n, W, L, k) == Modularity(n, W, M, K)
  {
    SumSqByPairs(n, W, L, k);
    SumSqByPairs(n, W, M, K);
    Sum2Eq(n, Inside(W, L), Inside(W, M));
    forall u: nat, v: nat | u < n && v < n
      ensures Inside(Pairs(n, W), L)(u, v) == Inside(Pairs(n, W), M)(u, v)
    {
      assert Degrees(n, W)(u) == 0 || Degrees(n, W)(v) == 0 ==> Pairs(n, W)(u, v) == 0;
    }
    Sum2Eq(n, Inside(Pairs(n, W), L), Inside(Pairs(n, W), M));
  }
}
