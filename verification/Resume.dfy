/** Exactly when interrupting an import leaves no trace: without any assumption on the corpus, only
    the order of anchors can differ, and it does for a new node that is written just once. */
module Resume {
  import opened Core
  import opened Join
  import opened EdgeMerge
  import opened Import

  // ---- up to the order of anchors ----

  /** Every node with its anchors in order. */
  ghost function Norm(c: Contents): Contents {
    c.(nodes := map id | id in c.nodes :: Canon(c.nodes[id]))
  }

  ghost function NormOp(op: Op): Op {
    match op case PutNode(n) => PutNode(Canon(n)) case _ => op
  }

  ghost function NormOps(ops: seq<Op>): seq<Op> {
    seq(|ops|, i requires 0 <= i < |ops| => NormOp(ops[i]))
  }

  lemma NormDo(c: Contents, op: Op)
    ensures Norm(Do(c, op)) == Do(Norm(c), NormOp(op))
  {
    hide Merge, Canon, MergeEdge;
    match op {
      case PutNode(n) =>
        CanonKeepsId(n);
        if n.Id() in c.nodes { MergeCanonical(c.nodes[n.Id()], n); }
        NormPut(c, n.Id(), Do(c, op).nodes[n.Id()]);
      case _ =>
    }
  }

  lemma NormPut(c: Contents, id: ContentHash, n: MemoryNode)
    ensures Norm(c.(nodes := c.nodes[id := n])) == Norm(c).(nodes := Norm(c).nodes[id := Canon(n)])
  {
    hide Canon;
    assert Norm(c.(nodes := c.nodes[id := n])).nodes == Norm(c).nodes[id := Canon(n)];
  }

  lemma CanonKeepsId(n: MemoryNode)
    ensures Canon(n).Id() == n.Id()
  {
  }

  lemma {:induction false} NormDoAll(c: Contents, ops: seq<Op>)
    ensures Norm(DoAll(c, ops)) == DoAll(Norm(c), NormOps(ops))
  {
    hide Do, Norm, NormOp;
    if ops != [] {
      var init, last := ops[..|ops| - 1], ops[|ops| - 1];
      NormDoAll(c, init);
      NormDo(DoAll(c, init), last);
      assert NormOps(ops)[..|ops| - 1] == NormOps(init);
    }
  }

  lemma NormKeyed(c: Contents)
    requires Keyed(c)
    ensures Keyed(Norm(c))
  {
    hide Canon;
    forall id | id in c.nodes ensures Norm(c).nodes[id].Id() == id { CanonKeepsId(c.nodes[id]); }
  }

  // ---- how often a node is written ----

  predicate WritesId(op: Op, id: ContentHash) { op.PutNode? && op.node.Id() == id }

  function Count(ops: seq<Op>, id: ContentHash): nat {
    if ops == [] then 0 else Count(ops[..|ops| - 1], id) + if WritesId(ops[|ops| - 1], id) then 1 else 0
  }

  lemma {:induction false} CountConcat(a: seq<Op>, b: seq<Op>, id: ContentHash)
    ensures Count(a + b, id) == Count(a, id) + Count(b, id)
  {
    if b == [] {
      assert a + b == a;
    } else {
      CountConcat(a, b[..|b| - 1], id);
      assert (a + b)[..|a + b| - 1] == a + b[..|b| - 1];
    }
  }

  lemma {:induction false} CountPositive(ops: seq<Op>, id: ContentHash)
    ensures Count(ops, id) > 0 <==> exists op :: op in ops && WritesId(op, id)
  {
    if ops != [] {
      CountPositive(ops[..|ops| - 1], id);
      assert ops == ops[..|ops| - 1] + [ops[|ops| - 1]];
    }
  }

  /** The writes bring `id` to the store, once, with anchors out of order. */
  ghost predicate Sole(c: Contents, ops: seq<Op>, id: ContentHash) {
    id !in c.nodes && Count(ops, id) == 1 && exists op :: op in ops && WritesId(op, id) && !Canonical(op.node.anchors)
  }

  lemma {:induction false} StoredAfter(c: Contents, ops: seq<Op>, id: ContentHash)
    ensures id in DoAll(c, ops).nodes <==> id in c.nodes || Count(ops, id) > 0
    ensures Count(ops, id) == 0 && id in c.nodes ==> DoAll(c, ops).nodes[id] == c.nodes[id]
  {
    hide Merge;
    if ops != [] { StoredAfter(c, ops[..|ops| - 1], id); }
  }

  /** A written node has its anchors in order, unless it was written just this once. */
  lemma {:induction false} CanonicalAfter(c: Contents, ops: seq<Op>, id: ContentHash)
    requires Count(ops, id) > 0
    ensures id in DoAll(c, ops).nodes
    ensures Canonical(DoAll(c, ops).nodes[id].anchors) <==> !Sole(c, ops, id)
  {
    hide MergeNode, Canonical;
    var init, last := ops[..|ops| - 1], ops[|ops| - 1];
    assert ops == init + [last];
    StoredAfter(c, ops, id);
    StoredAfter(c, init, id);
    CountPositive(init, id);
    if WritesId(last, id) {
      if id in DoAll(c, init).nodes {
        MergedInOrder(DoAll(c, init).nodes[id], last.node);
      } else {
        assert forall op :: op in ops && WritesId(op, id) ==> op == last;
      }
    } else {
      CanonicalAfter(c, init, id);
      assert DoAll(c, ops).nodes[id] == DoAll(c, init).nodes[id];
    }
  }

  lemma MergedInOrder(a: MemoryNode, b: MemoryNode)
    ensures Canonical(Merge(a, b).anchors)
  {
    UnionSpec(a.anchors, b.anchors);
  }

  // ---- what is left to do after an interruption ----

  function Cut(budget: nat, ops: seq<Op>): (cut: nat)
    ensures cut <= |ops|
  {
    if budget < |ops| then budget else |ops|
  }

  /** Cut off at `cut`, the writes `ops` start over at `s`, where the tenant that was cut short
      begins, and `left` is left to do. */
  ghost predicate StartsOver(ops: seq<Op>, cut: nat, s: nat, left: seq<Op>) {
    && s <= cut <= |ops| && left == ops[s..]
    && (forall i :: s <= i < cut ==> !ops[i].MarkDone?)
    && (s == cut ==> cut == 0 || ops[cut - 1].MarkDone?)
  }

  lemma {:induction false} ResumeTail(c: Contents, ts: seq<TenantBundle>, budget: nat) returns (s: nat)
    requires DistinctTenants(ts)
    ensures StartsOver(Pending(c, ts), Cut(budget, Pending(c, ts)), s, Pending(Attempt(c, ts, budget), ts))
    decreases |ts|
  {
    hide Writes, DoAll, IsDone, Pending, Attempt, StartsOver;
    s := 0;
    if ts == [] {
      NothingPending(c, ts, budget);
    } else {
      var t, rest, d := ts[0], ts[1..], Attempt(c, ts, budget);
      var ops, more := Writes(t), Pending(c, rest);
      Unfold(c, ts, budget);
      Unfold(d, ts, 0);
      if IsDone(c, t) {
        s := ResumeTail(c, rest, budget);
        OtherTenantsKeepDone(c, rest, budget, t);
      } else if budget < |ops| {
        SameAfterPart(c, ts, budget);
        NoRecordYet(t, more, budget);
      } else {
        var next := DoAll(c, ops);
        WritesMarkDone(c, t);
        var s' := ResumeTail(next, rest, budget - |ops|);
        OtherTenantsKeepDone(next, rest, budget - |ops|, t);
        SameAfterWhole(c, ts);
        s := |ops| + s';
        ShiftTail(t, more, s', Cut(budget - |ops|, more), Pending(d, rest));
      }
    }
  }

  lemma NothingPending(c: Contents, ts: seq<TenantBundle>, budget: nat)
    requires ts == []
    ensures Attempt(c, ts, budget) == c && StartsOver(Pending(c, ts), Cut(budget, Pending(c, ts)), 0, Pending(c, ts))
  {
  }

  lemma Unfold(c: Contents, ts: seq<TenantBundle>, budget: nat)
    requires ts != []
    ensures Pending(c, ts) == if IsDone(c, ts[0]) then Pending(c, ts[1..]) else Writes(ts[0]) + Pending(c, ts[1..])
    ensures Attempt(c, ts, budget) ==
      if IsDone(c, ts[0]) then Attempt(c, ts[1..], budget)
      else if budget < |Writes(ts[0])| then DoAll(c, Writes(ts[0])[..budget])
      else Attempt(DoAll(c, Writes(ts[0])), ts[1..], budget - |Writes(ts[0])|)
  {
    hide Writes, DoAll, IsDone;
    assert [] + Pending(c, ts[1..]) == Pending(c, ts[1..]);
  }

  lemma NoRecordYet(t: TenantBundle, more: seq<Op>, budget: nat)
    requires budget < |Writes(t)|
    ensures var all := Writes(t) + more; StartsOver(all, Cut(budget, all), 0, all)
  {
    hide Writes;
    WritesSpec(t);
  }

  lemma ShiftTail(t: TenantBundle, more: seq<Op>, s: nat, cut: nat, left: seq<Op>)
    requires StartsOver(more, cut, s, left)
    ensures StartsOver(Writes(t) + more, |Writes(t)| + cut, |Writes(t)| + s, left)
  {
    hide Writes;
    WritesSpec(t);
    var ops := Writes(t);
    var all := ops + more;
    assert forall i :: |ops| <= i < |all| ==> all[i] == more[i - |ops|];
    assert all[|ops| + s..] == more[s..];
  }

  lemma SameAfterPart(c: Contents, ts: seq<TenantBundle>, budget: nat)
    requires ts != [] && DistinctTenants(ts) && !IsDone(c, ts[0]) && budget < |Writes(ts[0])|
    ensures Pending(DoAll(c, Writes(ts[0])[..budget]), ts) == Pending(c, ts)
  {
    hide Writes, DoAll, IsDone, Pending;
    var d := DoAll(c, Writes(ts[0])[..budget]);
    forall u | 0 <= u < |ts| ensures IsDone(c, ts[u]) <==> IsDone(d, ts[u]) {
      if u == 0 { PartialIsNotDone(c, ts[0], budget); } else { WritesLeaveDone(c, ts[0], budget, ts[u]); }
    }
    PendingSame(c, d, ts);
  }

  lemma SameAfterWhole(c: Contents, ts: seq<TenantBundle>)
    requires ts != [] && DistinctTenants(ts)
    ensures Pending(DoAll(c, Writes(ts[0])), ts[1..]) == Pending(c, ts[1..])
  {
    hide Writes, DoAll, IsDone, Pending;
    var rest := ts[1..];
    forall u | 0 <= u < |rest| ensures IsDone(c, rest[u]) <==> IsDone(DoAll(c, Writes(ts[0])), rest[u]) {
      WritesLeaveDone(c, ts[0], 0, rest[u]);
    }
    PendingSame(c, DoAll(c, Writes(ts[0])), rest);
  }

  /** An interrupted and completed import as one list of writes. */
  lemma ResumedWrites(c: Contents, ts: seq<TenantBundle>, budget: nat) returns (s: nat)
    requires DistinctTenants(ts)
    ensures var ops := Pending(c, ts); var cut := Cut(budget, ops);
      && StartsOver(ops, cut, s, Pending(Attempt(c, ts, budget), ts))
      && Attempt(c, ts, budget) == DoAll(c, ops[..cut])
      && Complete(Attempt(c, ts, budget), ts) == DoAll(c, ops[..cut] + ops[s..])
  {
    hide Pending, DoAll, Attempt, Complete;
    s := ResumeTail(c, ts, budget);
    var ops := Pending(c, ts);
    ImportIsItsWrites(c, ts, budget);
    ImportIsItsWrites(Attempt(c, ts, budget), ts, 0);
    DoAllConcat(c, ops[..Cut(budget, ops)], ops[s..]);
  }

  // ---- one interruption ----

  /** Whatever the corpus, an interruption changes at most the order of anchors. */
  lemma SameUpToOrder(c: Contents, ts: seq<TenantBundle>, budget: nat)
    requires Keyed(c) && DistinctTenants(ts)
    ensures Norm(Complete(Attempt(c, ts, budget), ts)) == Norm(Complete(c, ts))
  {
    hide Pending, DoAll, Attempt, Complete, Norm, NormOp, Keyed, Canonical;
    var ops := Pending(c, ts);
    var cut := Cut(budget, ops);
    var s := ResumedWrites(c, ts, budget);
    ImportIsItsWrites(c, ts, 0);
    var start, rest, k := DoAll(c, ops[..s]), ops[s..], cut - s;
    assert ops[..cut] == ops[..s] + rest[..k] && ops == ops[..s] + rest;
    DoAllConcat(c, ops[..s], rest);
    DoAllConcat(c, ops[..s], rest[..k]);
    DoAllConcat(c, ops[..cut], rest);
    NormDoAll(start, rest);
    NormDoAll(start, rest[..k]);
    NormDoAll(DoAll(start, rest[..k]), rest);
    DoAllKeepsKeyed(c, ops[..s]);
    NormKeyed(start);
    assert NormOps(rest)[..k] == NormOps(rest[..k]);
    NormRepeatable(rest[..k]);
    RestartIsHarmless(Norm(start), NormOps(rest), k);
  }

  lemma NormRepeatable(ops: seq<Op>)
    requires forall i :: 0 <= i < |ops| ==> !ops[i].MarkDone?
    ensures Repeatable(NormOps(ops))
  {
    hide Canonical, Canon;
    forall i | 0 <= i < |ops| && ops[i].PutNode? ensures Canonical(NormOps(ops)[i].node.anchors) {
      CanonSpec(ops[i].node);
    }
  }

  /** One id: what an interruption leaves of it is what an uninterrupted import does, unless it is
      a new node written once with its anchors out of order. */
  lemma SameNode(c: Contents, ops: seq<Op>, cut: nat, s: nat, id: ContentHash)
    requires s <= cut <= |ops| && !Sole(c, ops, id)
    requires Norm(DoAll(c, ops)) == Norm(DoAll(c, ops[..cut] + ops[s..]))
    ensures var a, b := DoAll(c, ops).nodes, DoAll(c, ops[..cut] + ops[s..]).nodes;
      (id in a <==> id in b) && (id in a ==> a[id] == b[id])
  {
    hide DoAll, Canonical, Canon, Sole;
    var again := ops[..cut] + ops[s..];
    CountAgain(ops, cut, s, id);
    StoredAfter(c, ops, id);
    StoredAfter(c, again, id);
    if Count(ops, id) > 0 {
      CanonicalAfter(c, ops, id);
      CanonicalAfter(c, again, id);
      SoleAgain(c, ops, cut, s, id);
      var x, y := DoAll(c, ops).nodes[id], DoAll(c, again).nodes[id];
      CanonSpec(x);
      CanonSpec(y);
      assert Norm(DoAll(c, ops)).nodes[id] == Canon(x) && Norm(DoAll(c, again)).nodes[id] == Canon(y);
    }
  }

  lemma CountAgain(ops: seq<Op>, cut: nat, s: nat, id: ContentHash)
    requires s <= cut <= |ops|
    ensures Count(ops[..cut] + ops[s..], id) == Count(ops, id) + Count(ops[s..cut], id)
    ensures Count(ops, id) == 0 ==> Count(ops[..cut] + ops[s..], id) == 0
    ensures Count(ops[s..cut], id) <= Count(ops, id)
  {
    hide Count;
    assert ops == ops[..cut] + ops[cut..] && ops[..cut] == ops[..s] + ops[s..cut];
    assert ops[s..] == ops[s..cut] + ops[cut..];
    CountConcat(ops[..cut], ops[cut..], id);
    CountConcat(ops[s..cut], ops[cut..], id);
    CountConcat(ops[..s], ops[s..cut], id);
    CountConcat(ops[..cut], ops[s..], id);
  }

  lemma SoleAgain(c: Contents, ops: seq<Op>, cut: nat, s: nat, id: ContentHash)
    requires s <= cut <= |ops| && Count(ops, id) > 0
    ensures Sole(c, ops[..cut] + ops[s..], id) ==> Sole(c, ops, id)
  {
    hide Count, Canonical;
    CountAgain(ops, cut, s, id);
    var again := ops[..cut] + ops[s..];
    if Sole(c, again, id) {
      var op :| op in again && WritesId(op, id) && !Canonical(op.node.anchors);
      assert op in ops;
    }
  }

  lemma ResumesOnce(c: Contents, ts: seq<TenantBundle>, budget: nat)
    requires Keyed(c) && DistinctTenants(ts) && forall id :: !Sole(c, Pending(c, ts), id)
    ensures Complete(Attempt(c, ts, budget), ts) == Complete(c, ts)
    ensures forall id :: !Sole(Attempt(c, ts, budget), Pending(Attempt(c, ts, budget), ts), id)
  {
    hide Pending, DoAll, Attempt, Complete, Keyed, Sole;
    var ops := Pending(c, ts);
    var cut := Cut(budget, ops);
    var s := ResumedWrites(c, ts, budget);
    ImportIsItsWrites(c, ts, 0);
    SameUpToOrder(c, ts, budget);
    var a, b := DoAll(c, ops), DoAll(c, ops[..cut] + ops[s..]);
    forall id ensures (id in a.nodes <==> id in b.nodes) && (id in a.nodes ==> a.nodes[id] == b.nodes[id]) {
      SameNode(c, ops, cut, s, id);
    }
    assert a.nodes == b.nodes;
    SameRest(a, b);
    forall id ensures !Sole(Attempt(c, ts, budget), ops[s..], id) { SoleLater(c, ops, cut, s, id); }
  }

  lemma SameRest(a: Contents, b: Contents)
    requires Norm(a) == Norm(b)
    ensures a.edges == b.edges && a.done == b.done
  {
  }

  lemma SoleLater(c: Contents, ops: seq<Op>, cut: nat, s: nat, id: ContentHash)
    requires s <= cut <= |ops|
    ensures Sole(DoAll(c, ops[..cut]), ops[s..], id) ==> Sole(c, ops, id)
  {
    hide Count, Canonical, DoAll;
    StoredAfter(c, ops[..cut], id);
    assert ops == ops[..s] + ops[s..] && ops[..cut] == ops[..s] + ops[s..cut];
    CountConcat(ops[..s], ops[s..], id);
    CountConcat(ops[..s], ops[s..cut], id);
    if Sole(DoAll(c, ops[..cut]), ops[s..], id) {
      var op :| op in ops[s..] && WritesId(op, id) && !Canonical(op.node.anchors);
      assert op in ops;
    }
  }

  /** A new node written once with its anchors out of order shows that the import was cut short
      right after it. */
  lemma SoleShows(c: Contents, ts: seq<TenantBundle>, id: ContentHash) returns (budget: nat)
    requires DistinctTenants(ts) && Sole(c, Pending(c, ts), id)
    ensures Complete(Attempt(c, ts, budget), ts) != Complete(c, ts)
  {
    hide Pending, DoAll, Attempt, Complete, Canonical, Count;
    var ops := Pending(c, ts);
    CountPositive(ops, id);
    var op :| op in ops && WritesId(op, id);
    var p :| 0 <= p < |ops| && ops[p] == op;
    budget := p + 1;
    var s := ResumedWrites(c, ts, budget);
    ImportIsItsWrites(c, ts, 0);
    assert s <= p;
    CountAgain(ops, p + 1, s, id);
    assert ops[s..p + 1][p - s] == op;
    CountPositive(ops[s..p + 1], id);
    CanonicalAfter(c, ops, id);
    CanonicalAfter(c, ops[..p + 1] + ops[s..], id);
  }

  // ---- any number of interruptions ----

  lemma {:induction false} ResumesAlways(c: Contents, ts: seq<TenantBundle>, budgets: seq<nat>)
    requires Keyed(c) && DistinctTenants(ts) && forall id :: !Sole(c, Pending(c, ts), id)
    ensures Complete(Attempts(c, ts, budgets), ts) == Complete(c, ts)
    decreases |budgets|
  {
    hide Complete, Attempt, Keyed, Sole, Pending;
    if budgets != [] {
      ResumesOnce(c, ts, budgets[0]);
      AttemptKeepsKeyed(c, ts, budgets[0]);
      ResumesAlways(Attempt(c, ts, budgets[0]), ts, budgets[1..]);
    }
  }

  /** Interrupted after so many writes each time and then completed, an import ends as if it had
      never been. */
  ghost predicate Traceless(c: Contents, ts: seq<TenantBundle>, budgets: seq<nat>) {
    Complete(Attempts(c, ts, budgets), ts) == Complete(c, ts)
  }

  /** An import interrupted any number of times anywhere and then completed leaves the store of one
      uninterrupted import, for every way of interrupting it, exactly when no pending node that is
      new to the store and written once has its anchors out of order. */
  lemma ResumesExactly(c: Contents, ts: seq<TenantBundle>)
    requires Keyed(c) && DistinctTenants(ts)
    ensures (forall budgets :: Traceless(c, ts, budgets)) <==>
      forall id :: !Sole(c, Pending(c, ts), id)
  {
    hide Complete, Attempt, Keyed, Sole, Pending;
    if forall id :: !Sole(c, Pending(c, ts), id) {
      forall budgets ensures Traceless(c, ts, budgets) {
        ResumesAlways(c, ts, budgets);
      }
    } else {
      var id :| Sole(c, Pending(c, ts), id);
      var budget := SoleShows(c, ts, id);
      assert [budget][1..] == [];
      assert Attempts(Attempt(c, ts, budget), ts, []) == Attempt(c, ts, budget);
      assert Attempts(c, ts, [budget]) == Attempt(c, ts, budget);
      assert !Traceless(c, ts, [budget]);
    }
  }
}
