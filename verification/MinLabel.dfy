/** Parallel propagation of least labels (algo/src/function/component_ids.cpp, edge computes of
    weakly_connected_components.cpp and strongly_connected_components.cpp). */
module MinLabel {
  import opened Reachability
  import opened Graphs

  /** A read of a node's label on its way to a neighbour: (neighbour, value read). */
  type Message = (nat, nat)

  ghost predicate InRange(scan: seq<seq<nat>>) {
    forall u, i :: 0 <= u < |scan| && 0 <= i < |scan[u]| ==> scan[u][i] < |scan|
  }

  /** The pairs an edge compute works on: both ends still without a component. */
  ghost function Open(scan: seq<seq<nat>>, blocked: set<nat>): Edges {
    set u, i | 0 <= u < |scan| && 0 <= i < |scan[u]| && u !in blocked && scan[u][i] !in blocked :: (u, scan[u][i])
  }

  ghost predicate Touched(start: set<nat>, labels: seq<nat>, v: nat)
    requires v < |labels|
  {
    v in start || labels[v] != v
  }

  /** What holds at every moment: a label is its node's own id or the smaller id of a starting node
      that reaches it. */
  ghost predicate Sound(A: Edges, start: set<nat>, labels: seq<nat>) {
    forall v: nat :: v < |labels| ==>
      && labels[v] <= v
      && (Touched(start, labels, v) ==> labels[v] in start && Reach(A, labels[v], v))
  }

  /** Nothing left to do: no activated node has a smaller label than a neighbour. */
  ghost predicate Settled(A: Edges, start: set<nat>, labels: seq<nat>) {
    forall b: nat, w: nat :: b < |labels| && w < |labels| && (b, w) in A && Touched(start, labels, b) ==>
      labels[w] <= labels[b]
  }

  ghost predicate Fixpoint(A: Edges, start: set<nat>, labels: seq<nat>) {
    Sound(A, start, labels) && Settled(A, start, labels)
  }

  /** The work that may still be outstanding: slots of activated nodes not yet scanned, and reads not
      yet applied. */
  ghost predicate Covered(A: Edges, start: set<nat>, labels: seq<nat>, todo: multiset<(nat, nat)>, sent: multiset<Message>) {
    forall b: nat, w: nat :: b < |labels| && w < |labels| && (b, w) in A && Touched(start, labels, b) ==>
      labels[w] <= labels[b] || (b, w) in todo || Coming(sent, w, labels[b])
  }

  ghost predicate Coming(sent: multiset<Message>, w: nat, x: nat) {
    exists m: Message :: m in sent && m.0 == w && m.1 <= x
  }

  ghost predicate Honest(n: nat, A: Edges, start: set<nat>, sent: multiset<Message>) {
    forall m: Message :: m in sent ==> m.0 < n && m.1 in start && Reach(A, m.1, m.0)
  }

  ghost predicate Work(scan: seq<seq<nat>>, blocked: set<nat>, start: set<nat>, labels: seq<nat>,
                       todo: multiset<(nat, nat)>, sent: multiset<Message>)
  {
    var A := Open(scan, blocked);
    && InRange(scan) && |labels| == |scan| && start !! blocked
    && Sound(A, start, labels) && Covered(A, start, labels, todo, sent) && Honest(|scan|, A, start, sent)
    && (forall t :: t in todo ==>
          t.0 < |scan| && t.1 in scan[t.0] && t.0 !in blocked && Touched(start, labels, t.0))
  }

  // ------------------------------------------------------------------ single steps

  /** The slots of one node. */
  function Slots(scan: seq<seq<nat>>, v: nat): (s: multiset<(nat, nat)>)
    requires v < |scan|
    ensures forall t :: t in s <==> t.0 == v && t.1 in scan[v]
  {
    SlotsFrom(v, scan[v])
  }

  function SlotsFrom(v: nat, nbrs: seq<nat>): (s: multiset<(nat, nat)>)
    ensures forall t :: t in s <==> t.0 == v && t.1 in nbrs
  {
    if nbrs == [] then multiset{} else multiset{(v, nbrs[0])} + SlotsFrom(v, nbrs[1..])
  }

  lemma OpenEdge(scan: seq<seq<nat>>, blocked: set<nat>, b: nat, w: nat)
    requires InRange(scan)
    ensures (b, w) in Open(scan, blocked) <==> b < |scan| && w in scan[b] && b !in blocked && w !in blocked
    ensures (b, w) in Open(scan, blocked) ==> w < |scan|
  {
  }

  /** A thread scans one slot of an activated node: it reads the node's label, or skips a neighbour
      that already has its component. */
  lemma ReadKeepsWork(scan: seq<seq<nat>>, blocked: set<nat>, start: set<nat>, labels: seq<nat>,
                      todo: multiset<(nat, nat)>, sent: multiset<Message>, t: (nat, nat))
    requires Work(scan, blocked, start, labels, todo, sent) && t in todo
    ensures var sent' := if t.1 in blocked then sent else sent + multiset{(t.1, labels[t.0])};
            Work(scan, blocked, start, labels, todo - multiset{t}, sent')
  {
    var A := Open(scan, blocked);
    var todo' := todo - multiset{t};
    var m := (t.1, labels[t.0]);
    var sent' := if t.1 in blocked then sent else sent + multiset{m};
    OpenEdge(scan, blocked, t.0, t.1);
    if t.1 !in blocked {
      ReachEdge(A, t.0, t.1);
      ReachTrans(A, labels[t.0], t.0, t.1);
    }
    forall b: nat, w: nat | b < |labels| && w < |labels| && (b, w) in A && Touched(start, labels, b)
      ensures labels[w] <= labels[b] || (b, w) in todo' || Coming(sent', w, labels[b])
    {
      OpenEdge(scan, blocked, b, w);
      if (b, w) == t {
        assert m in sent';
      } else if Coming(sent, w, labels[b]) {
        var k: Message :| k in sent && k.0 == w && k.1 <= labels[b];
        assert k in sent';
      }
    }
  }

  /** A read is applied: the compare-and-swap loop lowers the neighbour's label to the value read, and
      activates it, exactly when the value is smaller. */
  lemma ApplyKeepsWork(scan: seq<seq<nat>>, blocked: set<nat>, start: set<nat>, labels: seq<nat>,
                       todo: multiset<(nat, nat)>, sent: multiset<Message>, m: Message)
    requires Work(scan, blocked, start, labels, todo, sent) && m in sent && m.0 !in blocked && m.0 < |labels|
    ensures labels[m.0] <= m.1 ==> Work(scan, blocked, start, labels, todo, sent - multiset{m})
    ensures labels[m.0] > m.1 ==>
              Work(scan, blocked, start, labels[m.0 := m.1], todo + Slots(scan, m.0), sent - multiset{m})
  {
    hide Covered, Sound, Honest, Open;
    if labels[m.0] <= m.1 {
      DropKeepsCovered(Open(scan, blocked), start, labels, todo, sent, m);
    } else {
      LowerKeepsCovered(scan, blocked, start, labels, todo, sent, m);
      LowerKeepsSound(Open(scan, blocked), start, labels, sent, m);
    }
    FewerHonest(|scan|, Open(scan, blocked), start, sent, m);
  }

  lemma FewerHonest(n: nat, A: Edges, start: set<nat>, sent: multiset<Message>, m: Message)
    requires Honest(n, A, start, sent)
    ensures Honest(n, A, start, sent - multiset{m})
  {
  }

  lemma DropKeepsCovered(A: Edges, start: set<nat>, labels: seq<nat>, todo: multiset<(nat, nat)>, sent: multiset<Message>, m: Message)
    requires Covered(A, start, labels, todo, sent) && m in sent && m.0 < |labels| && labels[m.0] <= m.1
    ensures Covered(A, start, labels, todo, sent - multiset{m})
  {
    var sent' := sent - multiset{m};
    forall b: nat, w: nat | b < |labels| && w < |labels| && (b, w) in A && Touched(start, labels, b)
      ensures labels[w] <= labels[b] || (b, w) in todo || Coming(sent', w, labels[b])
    {
      if Coming(sent, w, labels[b]) {
        var k: Message :| k in sent && k.0 == w && k.1 <= labels[b];
        assert k != m ==> k in sent';
      }
    }
  }

  lemma LowerKeepsSound(A: Edges, start: set<nat>, labels: seq<nat>, sent: multiset<Message>, m: Message)
    requires Sound(A, start, labels) && Honest(|labels|, A, start, sent) && m in sent
    requires m.0 < |labels| && labels[m.0] > m.1
    ensures m.1 < m.0 && Sound(A, start, labels[m.0 := m.1])
  {
  }

  lemma LowerKeepsCovered(scan: seq<seq<nat>>, blocked: set<nat>, start: set<nat>, labels: seq<nat>,
                          todo: multiset<(nat, nat)>, sent: multiset<Message>, m: Message)
    requires Work(scan, blocked, start, labels, todo, sent) && m in sent && labels[m.0] > m.1
    ensures Covered(Open(scan, blocked), start, labels[m.0 := m.1], todo + Slots(scan, m.0), sent - multiset{m})
  {
    var A := Open(scan, blocked);
    var labels', todo', sent' := labels[m.0 := m.1], todo + Slots(scan, m.0), sent - multiset{m};
    forall b: nat, w: nat | b < |labels| && w < |labels| && (b, w) in A && Touched(start, labels', b)
      ensures labels'[w] <= labels'[b] || (b, w) in todo' || Coming(sent', w, labels'[b])
    {
      OpenEdge(scan, blocked, b, w);
      if b == m.0 {
        assert (b, w) in Slots(scan, m.0);
      } else {
        assert Touched(start, labels, b);
        if Coming(sent, w, labels[b]) {
          var k: Message :| k in sent && k.0 == w && k.1 <= labels[b];
          assert k != m ==> k in sent';
        }
      }
    }
  }

  // ------------------------------------------------------------------ every schedule

  /** The labels after each step: sound every time, and no label ever rises. */
  ghost predicate Falling(A: Edges, start: set<nat>, trace: seq<seq<nat>>) {
    && (forall k :: 0 <= k < |trace| ==> Sound(A, start, trace[k]))
    && (forall k :: 0 <= k < |trace| - 1 ==> NoneRises(trace[k], trace[k + 1]))
  }

  ghost predicate NoneRises(a: seq<nat>, b: seq<nat>) {
    |b| == |a| && forall v :: 0 <= v < |a| ==> b[v] <= a[v]
  }

  lemma FallingStarts(A: Edges, start: set<nat>, labels: seq<nat>)
    requires Sound(A, start, labels)
    ensures Falling(A, start, [labels])
  {
  }

  lemma FallingStep(A: Edges, start: set<nat>, trace: seq<seq<nat>>, labels: seq<nat>)
    requires Falling(A, start, trace) && trace != [] && Sound(A, start, labels) && NoneRises(trace[|trace| - 1], labels)
    ensures Falling(A, start, trace + [labels])
  {
    hide Sound, NoneRises;
  }

  lemma WorkSound(scan: seq<seq<nat>>, blocked: set<nat>, start: set<nat>, labels: seq<nat>,
                  todo: multiset<(nat, nat)>, sent: multiset<Message>)
    requires Work(scan, blocked, start, labels, todo, sent)
    ensures Sound(Open(scan, blocked), start, labels)
  {
  }

  // ------------------------------------------------------------------ the labels everything settles at

  /** The pairs that lead to nodes above s. */
  ghost function Above(A: Edges, s: nat): Edges {
    set e | e in A && e.1 > s
  }

  /** s is v itself, or a starting node whose id travels to v through larger nodes only. */
  ghost predicate Source(A: Edges, start: set<nat>, s: nat, v: nat) {
    s == v || (s in start && Reach(Above(A, s), s, v))
  }

  ghost function LeastFrom(A: Edges, start: set<nat>, v: nat, k: nat): (s: nat)
    requires k <= v
    ensures k <= s <= v && Source(A, start, s, v) && forall t: nat :: k <= t < s ==> !Source(A, start, t, v)
    decreases v - k
  {
    if Source(A, start, k, v) then k else LeastFrom(A, start, v, k + 1)
  }

  /** The least id that can reach v by propagation. */
  ghost function Final(A: Edges, start: set<nat>, v: nat): (s: nat)
    ensures s <= v && Source(A, start, s, v) && forall t: nat :: t < s ==> !Source(A, start, t, v)
  {
    LeastFrom(A, start, v, 0)
  }

  lemma AboveMonotone(A: Edges, s: nat, t: nat, u: nat, v: nat)
    requires s <= t && Reach(Above(A, t), u, v)
    ensures Reach(Above(A, s), u, v)
  {
    ReachMonotone(Above(A, t), Above(A, s), u, v);
  }

  lemma FinalSettled(A: Edges, start: set<nat>, b: nat, w: nat)
    requires (b, w) in A && (b in start || Final(A, start, b) != b)
    ensures Final(A, start, w) <= Final(A, start, b)
  {
    var s := Final(A, start, b);
    if w > s {
      if s == b {
        ReachRefl(Above(A, s), s);
      }
      ReachEdge(Above(A, s), b, w);
      ReachTrans(Above(A, s), s, b, w);
      assert Source(A, start, s, w);
    }
  }

  /** Nothing below s is reached from s through nodes above s. */
  lemma ReachedAbove(A: Edges, s: nat, u: nat)
    requires Reach(Above(A, s), s, u)
    ensures u >= s
  {
    var S := {s} + set e | e in Above(A, s) :: e.1;
    ReachStaysInside(Above(A, s), s, u, S);
  }

  /** On the way of a node's final id, everything has that id. */
  lemma FinalOnTheWay(A: Edges, start: set<nat>, v: nat, u: nat)
    requires var s := Final(A, start, v); s != v && Reach(Above(A, s), s, u) && Reach(Above(A, s), u, v)
    ensures Final(A, start, u) == Final(A, start, v)
  {
    var s, t := Final(A, start, v), Final(A, start, u);
    ReachedAbove(A, s, u);
    assert Source(A, start, s, u);
    if t < s {
      AboveMonotone(A, t, s, u, v);
      ReachTrans(Above(A, t), t, u, v);
      assert Source(A, start, t, v);
    }
  }

  /** No label falls below its final value. */
  ghost predicate Floor(A: Edges, start: set<nat>, labels: seq<nat>, sent: multiset<Message>) {
    && (forall v: nat :: v < |labels| ==> Final(A, start, v) <= labels[v])
    && (forall m: Message :: m in sent ==> Final(A, start, m.0) <= m.1)
  }

  /** The nodes that have their final label. */
  ghost function AtFinal(A: Edges, start: set<nat>, labels: seq<nat>): (s: set<nat>)
    ensures s <= NodeSet(|labels|)
  {
    set v | v in NodeSet(|labels|) && labels[v] == Final(A, start, v)
  }

  /** Every activated node has passed its label on. */
  ghost predicate PassedOn(A: Edges, start: set<nat>, before: seq<nat>, after: seq<nat>) {
    && |after| == |before|
    && forall b: nat, w: nat :: b < |before| && w < |before| && (b, w) in A && Touched(start, before, b) ==> after[w] <= before[b]
  }

  /** An iteration gives one more node its final label, as long as one has not. */
  lemma IterationGains(A: Edges, start: set<nat>, before: seq<nat>, after: seq<nat>)
    requires forall e :: e in A ==> e.0 < |before| && e.1 < |before|
    requires (forall v: nat :: v < |before| ==> before[v] <= v) && NoneRises(before, after) && PassedOn(A, start, before, after)
    requires Floor(A, start, before, multiset{}) && Floor(A, start, after, multiset{})
    ensures AtFinal(A, start, before) <= AtFinal(A, start, after)
    ensures AtFinal(A, start, before) != NodeSet(|before|) ==> |AtFinal(A, start, after)| > |AtFinal(A, start, before)|
  {
    hide Source, Final;
    var D, D' := AtFinal(A, start, before), AtFinal(A, start, after);
    if D != NodeSet(|before|) {
      var v: nat :| v in NodeSet(|before|) && v !in D;
      var b := Frontmost(A, start, before, D, v);
      assert b in D' && b !in D;
      SubsetSize(D, D');
    } else {
      SubsetSize(D, D');
    }
  }

  /** Where the final label of v has got stuck: the next node on its way has it already one step ahead. */
  lemma Frontmost(A: Edges, start: set<nat>, before: seq<nat>, D: set<nat>, v: nat) returns (b: nat)
    requires forall e :: e in A ==> e.0 < |before| && e.1 < |before|
    requires (forall v: nat :: v < |before| ==> before[v] <= v) && Floor(A, start, before, multiset{})
    requires D == AtFinal(A, start, before) && v < |before| && v !in D
    ensures b < |before| && b !in D
    ensures exists a: nat :: a < |before| && (a, b) in A && Touched(start, before, a) && before[a] == Final(A, start, b)
  {
    var s := Final(A, start, v);
    assert s < before[v] <= v && s in start && Reach(Above(A, s), s, v);
    ReachRefl(Above(A, s), s);
    FinalOnTheWay(A, start, v, s);
    assert s in D;
    var a;
    a, b := ReachLeaves(Above(A, s), s, v, D);
    ReachEdge(Above(A, s), a, b);
    ReachTrans(Above(A, s), a, b, v);
    ReachTrans(Above(A, s), s, a, b);
    FinalOnTheWay(A, start, v, a);
    if b != v {
      FinalOnTheWay(A, start, v, b);
    }
    assert Touched(start, before, a);
  }

  // ------------------------------------------------------------------ one iteration

  /** Between iterations: whatever a label may still improve is a neighbour of a node in the frontier. */
  ghost predicate Boundary(scan: seq<seq<nat>>, blocked: set<nat>, start: set<nat>, labels: seq<nat>, frontier: set<nat>) {
    var A := Open(scan, blocked);
    && InRange(scan) && |labels| == |scan| && start !! blocked && Sound(A, start, labels)
    && (forall v :: v in frontier ==> v < |scan| && v !in blocked && Touched(start, labels, v))
    && forall b: nat, w: nat :: b < |labels| && w < |labels| && (b, w) in A && Touched(start, labels, b) ==>
      labels[w] <= labels[b] || b in frontier
  }

  /** Every slot of the frontier is still to be scanned, or its value is under way, or has arrived. */
  ghost predicate Promised(scan: seq<seq<nat>>, blocked: set<nat>, frontier: set<nat>, before: seq<nat>, labels: seq<nat>,
                           todo: multiset<(nat, nat)>, sent: multiset<Message>)
  {
    |before| == |labels| == |scan| &&
    forall b: nat, w: nat :: b in frontier && b < |scan| && w < |scan| && w in scan[b] && w !in blocked ==>
      (b, w) in todo || Coming(sent, w, before[b]) || labels[w] <= before[b]
  }

  /** The nodes activated for the next iteration are those whose labels were lowered. */
  ghost predicate Activated(scan: seq<seq<nat>>, blocked: set<nat>, before: seq<nat>, labels: seq<nat>, later: multiset<(nat, nat)>, next: set<nat>) {
    && |before| == |labels| && (forall v: nat :: v in next <==> v < |labels| && labels[v] != before[v])
    && (forall v :: v in next ==> v !in blocked) && (forall t :: t in later ==> t.0 in next)
  }

  /** In the middle of an iteration. */
  ghost predicate Under(scan: seq<seq<nat>>, blocked: set<nat>, start: set<nat>, frontier: set<nat>, before: seq<nat>, labels: seq<nat>,
                        todo: multiset<(nat, nat)>, later: multiset<(nat, nat)>, sent: multiset<Message>, next: set<nat>)
  {
    && Work(scan, blocked, start, labels, todo + later, sent) && Promised(scan, blocked, frontier, before, labels, todo, sent)
    && Activated(scan, blocked, before, labels, later, next) && NoneRises(before, labels)
    && Floor(Open(scan, blocked), start, labels, sent) && forall m :: m in sent ==> m.0 !in blocked
  }

  lemma ReadKeepsFloor(scan: seq<seq<nat>>, blocked: set<nat>, start: set<nat>, labels: seq<nat>,
                       todo: multiset<(nat, nat)>, sent: multiset<Message>, t: (nat, nat))
    requires Work(scan, blocked, start, labels, todo, sent) && t in todo && t.1 !in blocked && Floor(Open(scan, blocked), start, labels, sent)
    ensures t.0 < |labels| && Floor(Open(scan, blocked), start, labels, sent + multiset{(t.1, labels[t.0])})
  {
    hide Final, Covered, Honest;
    OpenEdge(scan, blocked, t.0, t.1);
    FinalSettled(Open(scan, blocked), start, t.0, t.1);
  }

  lemma ReadKeepsPromise(scan: seq<seq<nat>>, blocked: set<nat>, frontier: set<nat>, before: seq<nat>, labels: seq<nat>,
                         todo: multiset<(nat, nat)>, sent: multiset<Message>, t: (nat, nat))
    requires Promised(scan, blocked, frontier, before, labels, todo, sent) && t in todo && t.0 < |labels| && NoneRises(before, labels)
    ensures var sent' := if t.1 in blocked then sent else sent + multiset{(t.1, labels[t.0])};
            Promised(scan, blocked, frontier, before, labels, todo - multiset{t}, sent')
  {
    var m := (t.1, labels[t.0]);
    var todo', sent' := todo - multiset{t}, if t.1 in blocked then sent else sent + multiset{m};
    forall b: nat, w: nat | b in frontier && b < |scan| && w < |scan| && w in scan[b] && w !in blocked
      ensures (b, w) in todo' || Coming(sent', w, before[b]) || labels[w] <= before[b]
    {
      if (b, w) == t {
        assert m in sent';
      } else if Coming(sent, w, before[b]) {
        var k: Message :| k in sent && k.0 == w && k.1 <= before[b];
        assert k in sent';
      }
    }
  }

  lemma ApplyKeepsPromise(scan: seq<seq<nat>>, blocked: set<nat>, frontier: set<nat>, before: seq<nat>, labels: seq<nat>, labels': seq<nat>,
                          todo: multiset<(nat, nat)>, sent: multiset<Message>, m: Message)
    requires Promised(scan, blocked, frontier, before, labels, todo, sent) && m in sent && m.0 < |labels|
    requires NoneRises(labels, labels') && labels'[m.0] <= m.1
    ensures Promised(scan, blocked, frontier, before, labels', todo, sent - multiset{m})
  {
    var sent' := sent - multiset{m};
    forall b: nat, w: nat | b in frontier && b < |scan| && w < |scan| && w in scan[b] && w !in blocked
      ensures (b, w) in todo || Coming(sent', w, before[b]) || labels'[w] <= before[b]
    {
      if Coming(sent, w, before[b]) {
        var k: Message :| k in sent && k.0 == w && k.1 <= before[b];
        assert k != m ==> k in sent';
      }
    }
  }

  lemma ReadKeepsUnder(scan: seq<seq<nat>>, blocked: set<nat>, start: set<nat>, frontier: set<nat>, before: seq<nat>, labels: seq<nat>,
                       todo: multiset<(nat, nat)>, later: multiset<(nat, nat)>, sent: multiset<Message>, next: set<nat>, t: (nat, nat))
    requires Under(scan, blocked, start, frontier, before, labels, todo, later, sent, next) && t in todo
    ensures t.0 < |labels|
    ensures var sent' := if t.1 in blocked then sent else sent + multiset{(t.1, labels[t.0])};
            Under(scan, blocked, start, frontier, before, labels, todo - multiset{t}, later, sent', next)
  {
    SlotInRange(scan, blocked, start, labels, todo + later, sent, t);
    hide Work, Promised, Activated, NoneRises, Floor, Open;
    ReadKeepsWork(scan, blocked, start, labels, todo + later, sent, t);
    assert todo + later - multiset{t} == todo - multiset{t} + later;
    ReadKeepsPromise(scan, blocked, frontier, before, labels, todo, sent, t);
    if t.1 !in blocked {
      ReadKeepsFloor(scan, blocked, start, labels, todo + later, sent, t);
    }
  }

  lemma SlotInRange(scan: seq<seq<nat>>, blocked: set<nat>, start: set<nat>, labels: seq<nat>,
                    todo: multiset<(nat, nat)>, sent: multiset<Message>, t: (nat, nat))
    requires Work(scan, blocked, start, labels, todo, sent) && t in todo
    ensures t.0 < |labels|
  {
  }

  lemma LowersLabels(A: Edges, start: set<nat>, before: seq<nat>, labels: seq<nat>, sent: multiset<Message>, m: Message)
    requires NoneRises(before, labels) && Floor(A, start, labels, sent) && m in sent && m.0 < |labels|
    ensures var labels' := if labels[m.0] > m.1 then labels[m.0 := m.1] else labels;
            NoneRises(labels, labels') && NoneRises(before, labels') && Floor(A, start, labels', sent - multiset{m})
  {
    hide Final;
  }

  lemma ApplyKeepsUnder(scan: seq<seq<nat>>, blocked: set<nat>, start: set<nat>, frontier: set<nat>, before: seq<nat>, labels: seq<nat>,
                        todo: multiset<(nat, nat)>, later: multiset<(nat, nat)>, sent: multiset<Message>, next: set<nat>, m: Message)
    requires Under(scan, blocked, start, frontier, before, labels, todo, later, sent, next) && m in sent
    ensures m.0 < |labels| == |scan|
    ensures labels[m.0] <= m.1 ==> Under(scan, blocked, start, frontier, before, labels, todo, later, sent - multiset{m}, next)
    ensures labels[m.0] > m.1 ==>
              Under(scan, blocked, start, frontier, before, labels[m.0 := m.1], todo, later + Slots(scan, m.0), sent - multiset{m}, next + {m.0})
  {
    hide Work, Promised, Activated, NoneRises, Floor, Open;
    MessageInRange(scan, blocked, start, labels, todo + later, sent, m);
    WorkSizes(scan, blocked, start, labels, todo + later, sent);
    LowersLabels(Open(scan, blocked), start, before, labels, sent, m);
    var labels' := if labels[m.0] > m.1 then labels[m.0 := m.1] else labels;
    if labels[m.0] > m.1 {
      LoweredActivated(scan, blocked, before, labels, later, next, m);
    }
    ApplyKeepsWork(scan, blocked, start, labels, todo + later, sent, m);
    assert todo + later + Slots(scan, m.0) == todo + (later + Slots(scan, m.0));
    ApplyKeepsPromise(scan, blocked, frontier, before, labels, labels', todo, sent, m);
  }

  lemma LoweredActivated(scan: seq<seq<nat>>, blocked: set<nat>, before: seq<nat>, labels: seq<nat>, later: multiset<(nat, nat)>, next: set<nat>, m: Message)
    requires Activated(scan, blocked, before, labels, later, next) && NoneRises(before, labels) && m.0 < |labels| == |scan| && m.0 !in blocked
    requires labels[m.0] > m.1
    ensures Activated(scan, blocked, before, labels[m.0 := m.1], later + Slots(scan, m.0), next + {m.0})
  {
  }

  lemma WorkSizes(scan: seq<seq<nat>>, blocked: set<nat>, start: set<nat>, labels: seq<nat>,
                  todo: multiset<(nat, nat)>, sent: multiset<Message>)
    requires Work(scan, blocked, start, labels, todo, sent)
    ensures |labels| == |scan| && Sound(Open(scan, blocked), start, labels)
  {
  }

  /** One turn of some thread: it reads for a slot of the frontier, or applies a value read before. */
  method Turn(scan: seq<seq<nat>>, blocked: set<nat>, ghost start: set<nat>, ghost frontier: set<nat>, ghost before: seq<nat>, ids: array<nat>,
              todo: multiset<(nat, nat)>, ghost later: multiset<(nat, nat)>, sent: multiset<Message>, next: set<nat>)
    returns (todo': multiset<(nat, nat)>, ghost later': multiset<(nat, nat)>, sent': multiset<Message>, next': set<nat>)
    requires ids.Length == |scan| && Under(scan, blocked, start, frontier, before, ids[..], todo, later, sent, next)
    requires todo != multiset{} || sent != multiset{}
    modifies ids
    ensures Under(scan, blocked, start, frontier, before, ids[..], todo', later', sent', next') && NoneRises(old(ids[..]), ids[..])
    ensures 2 * |todo'| + |sent'| < 2 * |todo| + |sent|
  {
    hide Under, Slots;
    todo', later', sent', next' := todo, later, sent, next;
    ghost var labels := ids[..];
    var scanNext: bool := *;
    NotNone(todo);
    NotNone(sent);
    if todo != multiset{} && (sent == multiset{} || scanNext) {
      var t: (nat, nat) :| t in todo;
      ReadKeepsUnder(scan, blocked, start, frontier, before, labels, todo, later, sent, next, t);
      todo' := todo - multiset{t};
      if t.1 !in blocked {
        sent' := sent + multiset{(t.1, ids[t.0])};
      }
    } else {
      var m: (nat, nat) :| m in sent;
      ApplyKeepsUnder(scan, blocked, start, frontier, before, labels, todo, later, sent, next, m);
      sent' := sent - multiset{m};
      if ids[m.0] > m.1 {
        ids[m.0] := m.1;
        assert ids[..] == labels[m.0 := m.1];
        later', next' := later + Slots(scan, m.0), next + {m.0};
      }
    }
  }

  lemma NotNone(s: multiset<(nat, nat)>)
    ensures s != multiset{} ==> exists t: (nat, nat) :: t in s
  {
    if forall t: (nat, nat) :: t !in s {
      assert s == multiset{};
    }
  }

  lemma UnderStarts(scan: seq<seq<nat>>, blocked: set<nat>, start: set<nat>, frontier: set<nat>, labels: seq<nat>, todo: multiset<(nat, nat)>)
    requires Boundary(scan, blocked, start, labels, frontier) && Floor(Open(scan, blocked), start, labels, multiset{})
    requires forall t :: t in todo <==> t.0 in frontier && t.1 in scan[t.0]
    ensures Under(scan, blocked, start, frontier, labels, labels, todo, multiset{}, multiset{}, {})
  {
    hide Final, Sound;
    assert todo + multiset{} == todo;
    forall b: nat, w: nat | b < |labels| && w < |labels| && (b, w) in Open(scan, blocked) && Touched(start, labels, b)
      ensures labels[w] <= labels[b] || (b, w) in todo
    {
      OpenEdge(scan, blocked, b, w);
    }
  }

  lemma PassedAtEnd(scan: seq<seq<nat>>, blocked: set<nat>, start: set<nat>, frontier: set<nat>, before: seq<nat>, labels: seq<nat>)
    requires Boundary(scan, blocked, start, before, frontier) && NoneRises(before, labels)
    requires Promised(scan, blocked, frontier, before, labels, multiset{}, multiset{})
    ensures PassedOn(Open(scan, blocked), start, before, labels)
  {
    hide Sound;
    forall b: nat, w: nat | b < |before| && w < |before| && (b, w) in Open(scan, blocked) && Touched(start, before, b)
      ensures labels[w] <= before[b]
    {
      OpenEdge(scan, blocked, b, w);
    }
  }

  lemma BoundaryAtEnd(scan: seq<seq<nat>>, blocked: set<nat>, start: set<nat>, before: seq<nat>, labels: seq<nat>,
                      later: multiset<(nat, nat)>, next: set<nat>)
    requires Work(scan, blocked, start, labels, later, multiset{}) && Activated(scan, blocked, before, labels, later, next)
    requires NoneRises(before, labels) && forall v: nat :: v < |before| ==> before[v] <= v
    ensures Boundary(scan, blocked, start, labels, next)
  {
    hide Open, Sound;
  }

  /** At the end every activated node has passed its label on, and the frontier is what was lowered. */
  lemma UnderEnds(scan: seq<seq<nat>>, blocked: set<nat>, start: set<nat>, frontier: set<nat>, before: seq<nat>, labels: seq<nat>,
                  later: multiset<(nat, nat)>, next: set<nat>)
    requires Boundary(scan, blocked, start, before, frontier)
    requires Under(scan, blocked, start, frontier, before, labels, multiset{}, later, multiset{}, next)
    ensures Boundary(scan, blocked, start, labels, next) && PassedOn(Open(scan, blocked), start, before, labels)
    ensures Floor(Open(scan, blocked), start, labels, multiset{}) && NoneRises(before, labels)
    ensures forall v: nat :: v in next <==> v < |labels| && labels[v] != before[v]
  {
    hide Boundary, Work, Promised, NoneRises, Floor, Open, PassedOn;
    assert multiset{} + later == later;
    BoundaryFacts(scan, blocked, start, before, frontier);
    PassedAtEnd(scan, blocked, start, frontier, before, labels);
    BoundaryAtEnd(scan, blocked, start, before, labels, later, next);
  }

  /** One iteration of the engine: the threads scan the slots of the frontier and apply what they read, in any
      order; nodes whose labels were lowered form the next frontier. */
  method Iterate(scan: seq<seq<nat>>, blocked: set<nat>, ghost start: set<nat>, frontier: set<nat>, ids: array<nat>, ghost trace: seq<seq<nat>>)
    returns (next: set<nat>, ghost trace': seq<seq<nat>>)
    requires ids.Length == |scan| && Boundary(scan, blocked, start, ids[..], frontier)
    requires Floor(Open(scan, blocked), start, ids[..], multiset{})
    requires trace != [] && trace[|trace| - 1] == ids[..] && Falling(Open(scan, blocked), start, trace)
    modifies ids
    ensures Boundary(scan, blocked, start, ids[..], next) && Floor(Open(scan, blocked), start, ids[..], multiset{})
    ensures PassedOn(Open(scan, blocked), start, old(ids[..]), ids[..]) && NoneRises(old(ids[..]), ids[..])
    ensures forall v: nat :: v in next <==> v < ids.Length && ids[v] != old(ids[v])
    ensures trace <= trace' && trace'[|trace'| - 1] == ids[..] && Falling(Open(scan, blocked), start, trace')
  {
    hide Boundary, Floor, Open, Falling, NoneRises, Under, PassedOn;
    ghost var before := ids[..];
    FrontierInRange(scan, blocked, start, before, frontier);
    var todo := Frontier(scan, frontier);
    UnderStarts(scan, blocked, start, frontier, before, todo);
    var sent: multiset<Message> := multiset{};
    ghost var later: multiset<(nat, nat)> := multiset{};
    next, trace' := {}, trace;
    while todo != multiset{} || sent != multiset{}
      invariant Under(scan, blocked, start, frontier, before, ids[..], todo, later, sent, next)
      invariant trace <= trace' && trace'[|trace'| - 1] == ids[..] && Falling(Open(scan, blocked), start, trace')
      decreases 2 * |todo| + |sent|
    {
      todo, later, sent, next := Turn(scan, blocked, start, frontier, before, ids, todo, later, sent, next);
      UnderSound(scan, blocked, start, frontier, before, ids[..], todo, later, sent, next);
      FallingStep(Open(scan, blocked), start, trace', ids[..]);
      trace' := trace' + [ids[..]];
    }
    UnderEnds(scan, blocked, start, frontier, before, ids[..], later, next);
  }

  lemma FrontierInRange(scan: seq<seq<nat>>, blocked: set<nat>, start: set<nat>, labels: seq<nat>, frontier: set<nat>)
    requires Boundary(scan, blocked, start, labels, frontier)
    ensures forall v :: v in frontier ==> v < |scan|
  {
  }

  lemma UnderSound(scan: seq<seq<nat>>, blocked: set<nat>, start: set<nat>, frontier: set<nat>, before: seq<nat>, labels: seq<nat>,
                   todo: multiset<(nat, nat)>, later: multiset<(nat, nat)>, sent: multiset<Message>, next: set<nat>)
    requires Under(scan, blocked, start, frontier, before, labels, todo, later, sent, next)
    ensures Sound(Open(scan, blocked), start, labels)
  {
    WorkSound(scan, blocked, start, labels, todo + later, sent);
  }

  // ------------------------------------------------------------------ all iterations

  lemma BoundaryStarts(scan: seq<seq<nat>>, blocked: set<nat>, start: set<nat>, labels: seq<nat>)
    requires InRange(scan) && |labels| == |scan| && start !! blocked
    requires (forall v :: 0 <= v < |labels| ==> labels[v] == v) && forall v :: v in start ==> v < |scan|
    ensures Boundary(scan, blocked, start, labels, start) && Floor(Open(scan, blocked), start, labels, multiset{})
    ensures |labels| > 0 ==> |AtFinal(Open(scan, blocked), start, labels)| > 0
  {
    var A := Open(scan, blocked);
    forall v | v in start
      ensures Reach(A, v, v)
    {
      ReachRefl(A, v);
    }
    if |labels| > 0 {
      assert 0 in AtFinal(A, start, labels);
    }
  }

  lemma BoundaryFacts(scan: seq<seq<nat>>, blocked: set<nat>, start: set<nat>, labels: seq<nat>, frontier: set<nat>)
    requires Boundary(scan, blocked, start, labels, frontier)
    ensures Sound(Open(scan, blocked), start, labels) && (forall v: nat :: v < |labels| ==> labels[v] <= v) && |labels| == |scan|
    ensures forall e :: e in Open(scan, blocked) ==> e.0 < |labels| && e.1 < |labels|
    ensures frontier == {} ==> Fixpoint(Open(scan, blocked), start, labels)
  {
  }

  /** After r iterations more than r nodes have their final labels, unless the work has run out. */
  lemma IterationsGain(scan: seq<seq<nat>>, blocked: set<nat>, start: set<nat>, before: seq<nat>, after: seq<nat>, frontier: set<nat>, next: set<nat>, r: nat)
    requires Boundary(scan, blocked, start, before, frontier) && |after| == |before|
    requires Floor(Open(scan, blocked), start, before, multiset{}) && Floor(Open(scan, blocked), start, after, multiset{})
    requires PassedOn(Open(scan, blocked), start, before, after) && NoneRises(before, after)
    requires forall v: nat :: v in next <==> v < |after| && after[v] != before[v]
    requires |AtFinal(Open(scan, blocked), start, before)| > r
    ensures next == {} || |AtFinal(Open(scan, blocked), start, after)| > r + 1
  {
    var A := Open(scan, blocked);
    BoundaryFacts(scan, blocked, start, before, frontier);
    hide Boundary, PassedOn, Open, Final;
    IterationGains(A, start, before, after);
    if AtFinal(A, start, before) == NodeSet(|before|) {
      forall v: nat | v < |after|
        ensures after[v] == before[v]
      {
        assert v in AtFinal(A, start, before) && v in AtFinal(A, start, after);
      }
    }
  }

  /** Runs the edge computes for at most the given number of iterations. The labels are sound after every step and
      never rise; when the frontier has run empty they are a fixpoint. As many iterations as there are nodes
      always suffice. */
  method Propagate(scan: seq<seq<nat>>, blocked: set<nat>, start: set<nat>, ids: array<nat>, limit: nat)
    returns (drained: bool, ghost trace: seq<seq<nat>>)
    requires InRange(scan) && ids.Length == |scan| && start !! blocked
    requires forall v :: 0 <= v < ids.Length ==> ids[v] == v
    requires forall v :: v in start ==> v < |scan|
    modifies ids
    ensures trace != [] && trace[0] == old(ids[..]) && trace[|trace| - 1] == ids[..]
    ensures Falling(Open(scan, blocked), start, trace)
    ensures Sound(Open(scan, blocked), start, ids[..])
    ensures drained ==> Fixpoint(Open(scan, blocked), start, ids[..])
    ensures limit >= |scan| ==> drained
  {
    hide Sound, Settled, Open, NoneRises, Falling, Boundary, Floor, PassedOn, AtFinal;
    BoundaryStarts(scan, blocked, start, ids[..]);
    BoundaryFacts(scan, blocked, start, ids[..], start);
    trace := [ids[..]];
    FallingStarts(Open(scan, blocked), start, ids[..]);
    var frontier := start;
    var iter := 0;
    while frontier != {} && iter < limit
      invariant 0 <= iter <= limit
      invariant Boundary(scan, blocked, start, ids[..], frontier) && Floor(Open(scan, blocked), start, ids[..], multiset{})
      invariant trace != [] && trace[0] == old(ids[..]) && trace[|trace| - 1] == ids[..]
      invariant Falling(Open(scan, blocked), start, trace)
      invariant frontier == {} || |AtFinal(Open(scan, blocked), start, ids[..])| > iter
      decreases limit - iter
    {
      ghost var before, was := ids[..], frontier;
      frontier, trace := Iterate(scan, blocked, start, frontier, ids, trace);
      IterationsGain(scan, blocked, start, before, ids[..], was, frontier, iter);
      iter := iter + 1;
    }
    BoundaryFacts(scan, blocked, start, ids[..], frontier);
    AtFinalSize(Open(scan, blocked), start, ids[..]);
    drained := frontier == {};
  }

  lemma AtFinalSize(A: Edges, start: set<nat>, labels: seq<nat>)
    ensures |AtFinal(A, start, labels)| <= |labels|
  {
    SubsetSize(AtFinal(A, start, labels), NodeSet(|labels|));
  }

  lemma MessageInRange(scan: seq<seq<nat>>, blocked: set<nat>, start: set<nat>, labels: seq<nat>,
                       todo: multiset<(nat, nat)>, sent: multiset<Message>, m: Message)
    requires Work(scan, blocked, start, labels, todo, sent) && m in sent
    ensures m.0 < |scan|
  {
  }

  /** The slots of the first frontier. */
  method Frontier(scan: seq<seq<nat>>, start: set<nat>) returns (todo: multiset<(nat, nat)>)
    requires forall v :: v in start ==> v < |scan|
    ensures forall t :: t in todo <==> t.0 in start && t.1 in scan[t.0]
  {
    todo := multiset{};
    for v := 0 to |scan|
      invariant forall t :: t in todo <==> t.0 < v && t.0 in start && t.1 in scan[t.0]
    {
      if v in start {
        todo := todo + Slots(scan, v);
      }
    }
  }

  // ------------------------------------------------------------------ what a fixpoint means

  /** If no inactive node below s lies on its way, s's id bounds every label it reaches. */
  lemma ReachBounds(A: Edges, start: set<nat>, labels: seq<nat>, s: nat, v: nat)
    requires Fixpoint(A, start, labels) && s in start && s < |labels| && v < |labels| && Reach(A, s, v)
    requires forall e :: e in A ==> e.1 < |labels|
    requires forall w: nat :: w < |labels| && Reach(A, s, w) && !Touched(start, labels, w) ==> s <= w
    ensures labels[v] <= s
  {
    var S := set w | w in NodeSet(|labels|) && Reach(A, s, w) && labels[w] <= s;
    ReachRefl(A, s);
    forall e | e in A && e.0 in S
      ensures e.1 in S
    {
      ReachEdge(A, e.0, e.1);
      ReachTrans(A, s, e.0, e.1);
      assert Touched(start, labels, e.0);
      assert (e.0, e.1) in A;
    }
    ReachStaysInside(A, s, v, S);
  }

  // ------------------------------------------------------------------ weakly connected components

  ghost function WeakEdges(g: Graph): Edges
    requires g.Valid()
  {
    g.E() + Transpose(g.E())
  }

  lemma BothWaysIsWeak(g: Graph)
    requires g.Valid()
    ensures InRange(BothWays(g)) && Open(BothWays(g), {}) == WeakEdges(g)
  {
    var scan, A := BothWays(g), Open(BothWays(g), {});
    forall b: nat, w: nat
      ensures (b, w) in A <==> (b, w) in WeakEdges(g)
    {
      assert InRange(scan) by {
        forall u, i | 0 <= u < |scan| && 0 <= i < |scan[u]|
          ensures scan[u][i] < |scan|
        {
          g.NbrsInRange(u);
        }
      }
      OpenEdge(scan, {}, b, w);
      g.EdgeIsForward(b, w);
      g.EdgeIsBackward(w, b);
      assert (b, w) in Transpose(g.E()) <==> (w, b) in g.E();
    }
    forall e
      ensures e in A <==> e in WeakEdges(g)
    {
      assert e == (e.0, e.1);
    }
  }

  /** Each label is the least id of its weakly connected component. */
  ghost predicate LeastOfComponent(E: Edges, labels: seq<nat>) {
    forall v: nat :: v < |labels| ==>
      && Reach(E, labels[v], v)
      && forall u: nat :: u < |labels| && Reach(E, u, v) ==> labels[v] <= u
  }

  lemma AllActiveLeast(E: Edges, labels: seq<nat>)
    requires Fixpoint(E, NodeSet(|labels|), labels) && forall e :: e in E ==> e.1 < |labels|
    ensures LeastOfComponent(E, labels)
  {
    forall v: nat, u: nat | v < |labels| && u < |labels| && Reach(E, u, v)
      ensures labels[v] <= u
    {
      ReachBounds(E, NodeSet(|labels|), labels, u, v);
    }
  }

  /** The WCC table function: under every schedule, whenever the engine stops each label is the id of
      a node of the same weak component, and when it has run out of work it is the least one. As many iterations
      as nodes are enough for that. */
  method WeaklyConnected(g: Graph, maxIterations: nat) returns (labels: seq<nat>, drained: bool)
    requires g.Valid()
    ensures |labels| == g.n
    ensures forall v: nat :: v < g.n ==> labels[v] <= v && Reach(WeakEdges(g), labels[v], v)
    ensures drained ==> LeastOfComponent(WeakEdges(g), labels)
    ensures maxIterations >= g.n ==> drained
  {
    var ids := new nat[g.n](i => i);
    BothWaysIsWeak(g);
    var all := AllOffsets(g.n);
    ghost var trace;
    drained, trace := Propagate(BothWays(g), {}, all, ids, maxIterations);
    labels := ids[..];
    if drained {
      AllActiveLeast(WeakEdges(g), labels);
    }
  }
}
