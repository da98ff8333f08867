/** Numbering the nodes of several tables with one id range (algo/src/function/component_ids.cpp). */
module NodeOffsets {

  // The running offset is an unsigned 32-bit variable.
  const WRAP: nat := 0x1_0000_0000

  /** Number of nodes in the first t tables, in table-id order. */
  function Before(sizes: seq<nat>, t: nat): nat
    requires t <= |sizes|
  {
    if t == 0 then 0 else Before(sizes, t - 1) + sizes[t - 1]
  }

  /** The constructor's loop: where each table's ids start. */
  method StartOffsets(sizes: seq<nat>) returns (starts: seq<nat>)
    ensures |starts| == |sizes|
    ensures forall t :: 0 <= t < |sizes| ==> starts[t] == Before(sizes, t) % WRAP
  {
    starts := [];
    var offset := 0;
    for t := 0 to |sizes|
      invariant |starts| == t && offset == Before(sizes, t) % WRAP
      invariant forall k :: 0 <= k < t ==> starts[k] == Before(sizes, k) % WRAP
    {
      starts := starts + [offset];
      offset := (offset + sizes[t]) % WRAP;
    }
  }

  predicate IsNode(sizes: seq<nat>, t: nat, o: nat) {
    t < |sizes| && o < sizes[t]
  }

  /** The initial component id of node o of table t. */
  function Id(sizes: seq<nat>, t: nat, o: nat): nat
    requires IsNode(sizes, t, o)
  {
    Before(sizes, t) % WRAP + o
  }

  ghost predicate DistinctIds(sizes: seq<nat>) {
    forall t: nat, o: nat, t': nat, o': nat :: IsNode(sizes, t, o) && IsNode(sizes, t', o') && Id(sizes, t, o) == Id(sizes, t', o') ==>
      t == t' && o == o'
  }

  /** Every table that holds a node starts below 2^32. */
  predicate StartsFit(sizes: seq<nat>) {
    forall t :: 0 <= t < |sizes| && sizes[t] > 0 ==> Before(sizes, t) < WRAP
  }

  lemma {:induction false} BeforeMonotone(sizes: seq<nat>, s: nat, t: nat)
    requires s <= t <= |sizes|
    ensures Before(sizes, s) <= Before(sizes, t)
  {
    if s < t {
      BeforeMonotone(sizes, s, t - 1);
    }
  }

  /** Without a wrap the tables tile the id range: each position belongs to one of them. */
  lemma {:induction false} Locate(sizes: seq<nat>, t: nat, x: nat) returns (s: nat)
    requires t <= |sizes| && x < Before(sizes, t)
    ensures s < t && Before(sizes, s) <= x < Before(sizes, s + 1)
  {
    if x < Before(sizes, t - 1) {
      s := Locate(sizes, t - 1, x);
    } else {
      s := t - 1;
    }
  }

  lemma FitImpliesDistinct(sizes: seq<nat>, t: nat, o: nat, t': nat, o': nat)
    requires StartsFit(sizes) && IsNode(sizes, t, o) && IsNode(sizes, t', o') && t < t'
    ensures Id(sizes, t, o) < Id(sizes, t', o')
  {
    BeforeMonotone(sizes, t + 1, t');
  }

  /** The first table that starts too late begins on an id already given out. */
  lemma LateTableCollides(sizes: seq<nat>, t: nat) returns (s: nat, o: nat)
    requires t < |sizes| && sizes[t] > 0 && Before(sizes, t) >= WRAP
    requires forall k :: 0 <= k < t && sizes[k] > 0 ==> Before(sizes, k) < WRAP
    ensures s < t && IsNode(sizes, s, o) && Id(sizes, s, o) == Id(sizes, t, 0)
  {
    var x := Before(sizes, t) % WRAP;
    s := Locate(sizes, t, x);
    o := x - Before(sizes, s);
  }

  /** The loop that gives a table its ids ends only for fewer than 2^32 nodes. */
  predicate AllNumbered(sizes: seq<nat>) {
    forall t :: 0 <= t < |sizes| ==> sizes[t] < WRAP
  }

  /** Ids are distinct across tables exactly when every table with a node starts below 2^32. */
  lemma DistinctIffStartsFit(sizes: seq<nat>)
    requires AllNumbered(sizes)
    ensures DistinctIds(sizes) <==> StartsFit(sizes)
  {
    if StartsFit(sizes) {
      forall t: nat, o: nat, t': nat, o': nat |
        IsNode(sizes, t, o) && IsNode(sizes, t', o') && Id(sizes, t, o) == Id(sizes, t', o')
        ensures t == t' && o == o'
      {
        if t < t' {
          FitImpliesDistinct(sizes, t, o, t', o');
        } else if t' < t {
          FitImpliesDistinct(sizes, t', o', t, o);
        }
      }
    } else {
      var t := FirstLate(sizes);
      var s, o := LateTableCollides(sizes, t);
      assert IsNode(sizes, t, 0);
    }
  }

  lemma FirstLate(sizes: seq<nat>) returns (t: nat)
    requires !StartsFit(sizes)
    ensures t < |sizes| && sizes[t] > 0 && Before(sizes, t) >= WRAP
    ensures forall k :: 0 <= k < t && sizes[k] > 0 ==> Before(sizes, k) < WRAP
  {
    t := 0;
    while sizes[t] == 0 || Before(sizes, t) < WRAP
      invariant t < |sizes| && forall k :: 0 <= k < t && sizes[k] > 0 ==> Before(sizes, k) < WRAP
      decreases |sizes| - t
    {
      if t + 1 == |sizes| {
        assert StartsFit(sizes);
      }
      t := t + 1;
    }
  }

  /** Two tables of 2^31 nodes before another one: the first and the third start with the same id. */
  lemma WrapExample()
    ensures var sizes := [0x8000_0000, 0x8000_0000, 1];
            AllNumbered(sizes) && !DistinctIds(sizes) && Id(sizes, 0, 0) == Id(sizes, 2, 0)
  {
    var sizes := [0x8000_0000, 0x8000_0000, 1];
    assert Before(sizes, 1) == Before(sizes, 0) + sizes[0] == 0x8000_0000;
    assert Before(sizes, 2) == Before(sizes, 1) + sizes[1] == WRAP;
    assert IsNode(sizes, 0, 0) && IsNode(sizes, 2, 0) && Id(sizes, 0, 0) == Id(sizes, 2, 0);
  }
}
