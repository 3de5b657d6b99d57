/** The resumable corpus import (crates/mem-corpus/src/import.rs) over the trusted replica merge
    (crates/mem-sync/src/lib.rs). */
module Import {
  import opened Sorting
  import opened Core
  import opened Join
  import opened Identity
  import opened EdgeMerge

  /** Nodes, edges, and the bundle hash recorded for each imported tenant. */
  datatype Contents = Contents(nodes: map<ContentHash, MemoryNode>, edges: map<EdgeKey, Edge>, done: map<Bytes, Bytes>)

  ghost predicate Keyed(c: Contents) {
    && (forall id :: id in c.nodes ==> c.nodes[id].Id() == id)
    && (forall k :: k in c.edges ==> c.edges[k].Key() == k)
  }

  // ---- one write ----

  datatype Op = PutNode(node: MemoryNode) | PutEdge(edge: Edge) | MarkDone(tenant: Bytes, sha: Bytes)

  function Do(c: Contents, op: Op): Contents {
    match op
    case PutNode(n) =>
      c.(nodes := c.nodes[n.Id() := if n.Id() in c.nodes then Merge(c.nodes[n.Id()], n) else n])
    case PutEdge(e) =>
      c.(edges := c.edges[e.Key() := if e.Key() in c.edges then MergeEdge(c.edges[e.Key()], e) else e])
    case MarkDone(t, sha) => c.(done := c.done[t := sha])
  }

  function DoAll(c: Contents, ops: seq<Op>): Contents {
    if ops == [] then c else Do(DoAll(c, ops[..|ops| - 1]), ops[|ops| - 1])
  }

  lemma {:induction false} DoAllConcat(c: Contents, a: seq<Op>, b: seq<Op>)
    ensures DoAll(c, a + b) == DoAll(DoAll(c, a), b)
  {
    if b == [] {
      assert a + b == a;
    } else {
      DoAllConcat(c, a, b[..|b| - 1]);
      assert (a + b)[..|a + b| - 1] == a + b[..|b| - 1];
    }
  }

  // ---- a write repeated ----

  /** Doing the write again changes nothing. */
  ghost predicate Settled(c: Contents, op: Op) { Do(c, op) == c }

  /** A write done once is settled, exactly unless it is the first insert of a node whose anchors
      are not yet in order: the insert stores them as they come, the repeat sorts them. */
  lemma DoneIsSettled(c: Contents, op: Op)
    requires Keyed(c)
    ensures Settled(Do(c, op), op) <==>
      !(op.PutNode? && op.node.Id() !in c.nodes && !Canonical(op.node.anchors))
  {
    hide MergeNode, MergeEdge, Canonical;
    match op {
      case PutNode(n) =>
        var id := n.Id();
        SelfMerge(n);
        if id in c.nodes { MergedTwice(c.nodes[id], n); }
        assert Do(c, op).nodes[id := Do(c, op).nodes[id]] == Do(c, op).nodes;
        assert Do(Do(c, op), op).nodes[id] == Merge(Do(c, op).nodes[id], n);
      case PutEdge(e) =>
        if e.Key() in c.edges { MergeEdgeAbsorbs(c.edges[e.Key()], e); } else { MergeEdgeAbsorbs(e, e); }
      case MarkDone(_, _) =>
    }
  }

  /** Other writes of nodes and edges do not unsettle it. */
  lemma SettledStays(c: Contents, op: Op, other: Op)
    requires Keyed(c) && Settled(c, op)
    requires op.MarkDone? && other.MarkDone? ==> other == op || other.tenant != op.tenant
    ensures Settled(Do(c, other), op)
  {
    hide MergeNode, MergeEdge;
    match (op, other) {
      case (PutNode(n), PutNode(m)) =>
        var id := n.Id();
        assert id in Do(c, op).nodes && Do(c, op).nodes[id] == c.nodes[id];
        if m.Id() == id {
          var x := c.nodes[id];
          MergeAssociates(x, m, n);
          MergeAssociates(x, n, m);
          MergeCommutes(m, n);
        }
        assert Do(Do(c, other), op).nodes == Do(c, other).nodes;
      case (PutEdge(e), PutEdge(f)) =>
        var k := e.Key();
        assert k in Do(c, op).edges && Do(c, op).edges[k] == c.edges[k];
        if f.Key() == k {
          MergeEdgeKeepsAbsorbing(c.edges[k], f, e);
        }
        assert Do(Do(c, other), op).edges == Do(c, other).edges;
      case (MarkDone(t, sha), MarkDone(u, _)) =>
        assert Do(c, op).done[t] == c.done[t];
        assert Do(Do(c, other), op).done == Do(c, other).done;
      case _ =>
    }
  }

  lemma DoKeepsKeyed(c: Contents, op: Op)
    requires Keyed(c)
    ensures Keyed(Do(c, op))
  {
    hide JoinConfidence, UnionAnchors, AdvisoryLess;
  }

  lemma {:induction false} DoAllKeepsKeyed(c: Contents, ops: seq<Op>)
    requires Keyed(c)
    ensures Keyed(DoAll(c, ops))
  {
    hide Do, Keyed;
    if ops != [] {
      DoAllKeepsKeyed(c, ops[..|ops| - 1]);
      DoKeepsKeyed(DoAll(c, ops[..|ops| - 1]), ops[|ops| - 1]);
    }
  }

  // ---- one tenant ----

  const IMPORT_BATCH: nat := 128

  /** A tenant's bundle and where its vectors come from: the i-th precomputed vector, or this
      machine's embedding of the node. `None` is an unreadable vector or a failed embedding.
      Of the id hash only the order of its bytes matters, which is the order of writing. */
  datatype TenantBundle = TenantBundle(
    tenant: Bytes, sha: Bytes, nodes: seq<MemoryNode>, edges: seq<Edge>,
    vectorFor: (nat, MemoryNode) -> Option<VersionedVector>, hash: ContentHash -> Bytes)

  /** Node `i` with vector `i`, whichever batch it falls into. */
  function Embedded(t: TenantBundle, i: nat): MemoryNode
    requires i < |t.nodes|
  {
    t.nodes[i].(embedding := t.vectorFor(i, t.nodes[i]))
  }

  function NodeOrder(hash: ContentHash -> Bytes): (MemoryNode, MemoryNode) -> bool {
    (a: MemoryNode, b: MemoryNode) => LexLe(hash(a.Id()), hash(b.Id()))
  }

  function KeyOf(hash: ContentHash -> Bytes, e: Edge): Bytes { KeyBytes(hash(e.from), hash(e.to), e.kind) }

  function EdgeOrder(hash: ContentHash -> Bytes): (Edge, Edge) -> bool {
    (a: Edge, b: Edge) => LexLe(KeyOf(hash, a), KeyOf(hash, b))
  }

  lemma WriteOrders(hash: ContentHash -> Bytes)
    ensures TotalPreorder(NodeOrder(hash)) && TotalPreorder(EdgeOrder(hash))
  {
    var n, e := NodeOrder(hash), EdgeOrder(hash);
    forall a, b ensures n(a, b) || n(b, a) { LexTotal(hash(a.Id()), hash(b.Id())); }
    forall a, b, c | n(a, b) && n(b, c) ensures n(a, c) {
      LexTransitive(hash(a.Id()), hash(b.Id()), hash(c.Id()));
    }
    forall a, b ensures e(a, b) || e(b, a) { LexTotal(KeyOf(hash, a), KeyOf(hash, b)); }
    forall a, b, c | e(a, b) && e(b, c) ensures e(a, c) {
      LexTransitive(KeyOf(hash, a), KeyOf(hash, b), KeyOf(hash, c));
    }
  }

  /** How many nodes the batch starting at `from` holds. */
  function BatchSize(t: TenantBundle, from: nat): nat
    requires from <= |t.nodes|
  {
    if |t.nodes| - from < IMPORT_BATCH then |t.nodes| - from else IMPORT_BATCH
  }

  function Batch(t: TenantBundle, from: nat, size: nat): seq<MemoryNode>
    requires from + size <= |t.nodes|
  {
    seq(size, i requires 0 <= i < size => Embedded(t, from + i))
  }

  function NodeOps(ns: seq<MemoryNode>): seq<Op> {
    seq(|ns|, i requires 0 <= i < |ns| => PutNode(ns[i]))
  }

  function EdgeOps(es: seq<Edge>): seq<Op> {
    seq(|es|, i requires 0 <= i < |es| => PutEdge(es[i]))
  }

  /** The node writes from `from` on: batch by batch, each batch in the order of its ids. */
  function NodeWrites(t: TenantBundle, from: nat): seq<Op>
    requires from <= |t.nodes|
    decreases |t.nodes| - from
  {
    if from == |t.nodes| then []
    else
      var size := BatchSize(t, from);
      NodeOps(Sort(NodeOrder(t.hash), Batch(t, from, size))) + NodeWrites(t, from + size)
  }

  /** The writes of one tenant in the order they happen: its nodes, its edges in the order of
      their keys, and last the record that it is done. */
  function Writes(t: TenantBundle): seq<Op> {
    NodeWrites(t, 0) + EdgeOps(Sort(EdgeOrder(t.hash), t.edges)) + [MarkDone(t.tenant, t.sha)]
  }

  ghost predicate TenantOp(t: TenantBundle, from: nat, op: Op) {
    match op
    case PutNode(n) => exists i :: from <= i < |t.nodes| && n == Embedded(t, i)
    case PutEdge(e) => e in t.edges
    case MarkDone(tenant, sha) => tenant == t.tenant && sha == t.sha
  }

  lemma {:induction false} NodeWritesSpec(t: TenantBundle, from: nat)
    requires from <= |t.nodes|
    ensures |NodeWrites(t, from)| == |t.nodes| - from
    ensures forall op :: op in NodeWrites(t, from) ==> op.PutNode? && TenantOp(t, from, op)
    ensures forall i :: from <= i < |t.nodes| ==> PutNode(Embedded(t, i)) in NodeWrites(t, from)
    decreases |t.nodes| - from
  {
    hide Sort, Embedded, NodeOps, Batch;
    if from < |t.nodes| {
      var size := BatchSize(t, from);
      BatchSpec(t, from, size);
      NodeWritesSpec(t, from + size);
      var first, rest := NodeOps(Sort(NodeOrder(t.hash), Batch(t, from, size))), NodeWrites(t, from + size);
      forall op: Op | op in first + rest ensures op.PutNode? && TenantOp(t, from, op) {
        assert op in first || TenantOp(t, from + size, op);
      }
      forall i | from <= i < |t.nodes| ensures PutNode(Embedded(t, i)) in first + rest {
        assert PutNode(Embedded(t, i)) in first || PutNode(Embedded(t, i)) in rest;
      }
    }
  }

  lemma BatchSpec(t: TenantBundle, from: nat, size: nat)
    requires from + size <= |t.nodes|
    ensures var ops := NodeOps(Sort(NodeOrder(t.hash), Batch(t, from, size)));
      && |ops| == size && (forall op :: op in ops ==> op.PutNode? && TenantOp(t, from, op))
      && (forall i :: from <= i < from + size ==> PutNode(Embedded(t, i)) in ops)
  {
    hide Sort, Embedded, NodeOrder;
    var batch := Batch(t, from, size);
    var sorted := Sort(NodeOrder(t.hash), batch);
    WriteOrders(t.hash);
    SortSorts(NodeOrder(t.hash), batch);
    forall op | op in NodeOps(sorted) ensures op.PutNode? && TenantOp(t, from, op) {
      var k :| 0 <= k < |sorted| && op == PutNode(sorted[k]);
      assert sorted[k] in batch;
      var i :| 0 <= i < size && batch[i] == sorted[k];
      assert op.node == Embedded(t, from + i);
    }
    forall i | from <= i < from + size ensures PutNode(Embedded(t, i)) in NodeOps(sorted) {
      assert batch[i - from] in sorted;
      var k :| 0 <= k < |sorted| && sorted[k] == batch[i - from];
      assert NodeOps(sorted)[k] == PutNode(Embedded(t, i));
    }
  }

  /** The writes of a tenant are its nodes with their vectors, its edges, and the record last. */
  lemma WritesSpec(t: TenantBundle)
    ensures |Writes(t)| == |t.nodes| + |t.edges| + 1
    ensures forall op :: op in Writes(t) ==> TenantOp(t, 0, op)
    ensures forall i :: 0 <= i < |t.nodes| ==> PutNode(Embedded(t, i)) in Writes(t)
    ensures forall e :: e in t.edges ==> PutEdge(e) in Writes(t)
    ensures Writes(t)[|Writes(t)| - 1] == MarkDone(t.tenant, t.sha)
    ensures forall i :: 0 <= i < |Writes(t)| - 1 ==> !Writes(t)[i].MarkDone?
  {
    hide Sort, Embedded, NodeWrites;
    NodeWritesSpec(t, 0);
    WriteOrders(t.hash);
    SortSorts(EdgeOrder(t.hash), t.edges);
    var sorted := Sort(EdgeOrder(t.hash), t.edges);
    var nodes, edges := NodeWrites(t, 0), EdgeOps(sorted);
    forall op | op in edges ensures op.PutEdge? && TenantOp(t, 0, op) {
      var k :| 0 <= k < |sorted| && op == PutEdge(sorted[k]);
      assert sorted[k] in t.edges;
    }
    forall e | e in t.edges ensures PutEdge(e) in Writes(t) {
      assert e in sorted;
      var k :| 0 <= k < |sorted| && sorted[k] == e;
      assert edges[k] == PutEdge(e) && PutEdge(e) in edges;
    }
    forall i | 0 <= i < |Writes(t)| - 1 ensures !Writes(t)[i].MarkDone? {
      if i < |nodes| { assert nodes[i] in nodes; } else { assert edges[i - |nodes|] in edges; }
    }
  }

  /** What the shape check of a bundle guarantees about its nodes, and anchors in order, which
      every node of a built corpus has because it has none (crates/mem-corpus/src/build.rs:683). */
  ghost predicate PlainNodes(t: TenantBundle) {
    forall i :: 0 <= i < |t.nodes| ==>
      t.nodes[i].status == Active && t.nodes[i].validTo.None? && Canonical(t.nodes[i].anchors)
  }

  ghost predicate AllSettled(c: Contents, ops: seq<Op>) {
    forall i :: 0 <= i < |ops| ==> Settled(c, ops[i])
  }

  /** A list of writes that can be repeated: nodes in order, and one record at most. */
  ghost predicate Repeatable(ops: seq<Op>) {
    && (forall i :: 0 <= i < |ops| && ops[i].PutNode? ==> Canonical(ops[i].node.anchors))
    && (forall i, j :: 0 <= i < |ops| && 0 <= j < |ops| && ops[i].MarkDone? && ops[j].MarkDone? ==> ops[i] == ops[j])
  }

  lemma {:induction false} DoneAreSettled(c: Contents, ops: seq<Op>)
    requires Keyed(c) && Repeatable(ops)
    ensures AllSettled(DoAll(c, ops), ops)
  {
    hide Do, Settled, Keyed, Canonical;
    if ops != [] {
      var init, last := ops[..|ops| - 1], ops[|ops| - 1];
      DoneAreSettled(c, init);
      DoAllKeepsKeyed(c, init);
      var mid := DoAll(c, init);
      DoneIsSettled(mid, last);
      forall i | 0 <= i < |ops| ensures Settled(Do(mid, last), ops[i]) {
        if i < |init| {
          assert Settled(mid, init[i]);
          SettledStays(mid, ops[i], last);
        }
      }
    }
  }

  lemma {:induction false} SettledDoNothing(c: Contents, ops: seq<Op>)
    requires AllSettled(c, ops)
    ensures DoAll(c, ops) == c
  {
    hide Do;
    if ops != [] {
      assert forall i :: 0 <= i < |ops| - 1 ==> ops[..|ops| - 1][i] == ops[i];
      SettledDoNothing(c, ops[..|ops| - 1]);
      assert Settled(c, ops[|ops| - 1]);
    }
  }

  /** Starting over after any part of the writes ends where doing them once does. */
  lemma RestartIsHarmless(c: Contents, ops: seq<Op>, cut: nat)
    requires Keyed(c) && cut <= |ops| && Repeatable(ops[..cut])
    ensures DoAll(DoAll(c, ops[..cut]), ops) == DoAll(c, ops)
  {
    hide Do, Keyed, AllSettled;
    var part, rest := ops[..cut], ops[cut..];
    assert ops == part + rest;
    DoneAreSettled(c, part);
    SettledDoNothing(DoAll(c, part), part);
    DoAllConcat(DoAll(c, part), part, rest);
    DoAllConcat(c, part, rest);
  }

  // ---- the whole corpus ----

  predicate IsDone(c: Contents, t: TenantBundle) { t.tenant in c.done && c.done[t.tenant] == t.sha }

  /** An import that runs to the end. */
  function Complete(c: Contents, ts: seq<TenantBundle>): Contents
    decreases |ts|
  {
    if ts == [] then c
    else Complete(if IsDone(c, ts[0]) then c else DoAll(c, Writes(ts[0])), ts[1..])
  }

  /** An import stopped after `budget` writes. */
  function Attempt(c: Contents, ts: seq<TenantBundle>, budget: nat): Contents
    decreases |ts|
  {
    if ts == [] then c
    else if IsDone(c, ts[0]) then Attempt(c, ts[1..], budget)
    else
      var ops := Writes(ts[0]);
      if budget < |ops| then DoAll(c, ops[..budget])
      else Attempt(DoAll(c, ops), ts[1..], budget - |ops|)
  }

  /** What verification of the corpus guarantees: plain nodes, and each tenant listed once. */
  ghost predicate Verified(ts: seq<TenantBundle>) {
    && (forall i :: 0 <= i < |ts| ==> PlainNodes(ts[i]))
    && (forall i, j :: 0 <= i < j < |ts| ==> ts[i].tenant != ts[j].tenant)
  }

  lemma WritesRepeatable(t: TenantBundle)
    requires PlainNodes(t)
    ensures Repeatable(Writes(t))
  {
    hide Canonical, Writes;
    WritesSpec(t);
    forall i | 0 <= i < |Writes(t)| && Writes(t)[i].PutNode? ensures Canonical(Writes(t)[i].node.anchors) {
      assert TenantOp(t, 0, Writes(t)[i]);
    }
  }

  lemma {:induction false} DoneAfter(c: Contents, ops: seq<Op>, tenant: Bytes)
    requires forall i :: 0 <= i < |ops| && ops[i].MarkDone? ==> ops[i].tenant != tenant
    ensures tenant in DoAll(c, ops).done <==> tenant in c.done
    ensures tenant in c.done ==> DoAll(c, ops).done[tenant] == c.done[tenant]
  {
    if ops != [] { DoneAfter(c, ops[..|ops| - 1], tenant); }
  }

  lemma WritesMarkDone(c: Contents, t: TenantBundle)
    ensures IsDone(DoAll(c, Writes(t)), t)
  {
    hide Writes;
    WritesSpec(t);
  }

  lemma PartialIsNotDone(c: Contents, t: TenantBundle, cut: nat)
    requires !IsDone(c, t) && cut < |Writes(t)|
    ensures !IsDone(DoAll(c, Writes(t)[..cut]), t)
  {
    hide Writes, DoAll;
    WritesSpec(t);
    assert forall i :: 0 <= i < cut ==> Writes(t)[..cut][i] == Writes(t)[i];
    DoneAfter(c, Writes(t)[..cut], t.tenant);
  }

  /** Writing one tenant, or a part of it, leaves the records of the others. */
  lemma WritesLeaveDone(c: Contents, u: TenantBundle, cut: nat, t: TenantBundle)
    requires u.tenant != t.tenant && cut <= |Writes(u)|
    ensures IsDone(DoAll(c, Writes(u)[..cut]), t) <==> IsDone(c, t)
    ensures IsDone(DoAll(c, Writes(u)), t) <==> IsDone(c, t)
  {
    hide Writes, DoAll;
    WritesSpec(u);
    assert forall i :: 0 <= i < |Writes(u)| && Writes(u)[i].MarkDone? ==> TenantOp(u, 0, Writes(u)[i]);
    assert forall i :: 0 <= i < cut ==> Writes(u)[..cut][i] == Writes(u)[i];
    DoneAfter(c, Writes(u)[..cut], t.tenant);
    DoneAfter(c, Writes(u), t.tenant);
  }

  lemma {:induction false} OtherTenantsKeepDone(c: Contents, ts: seq<TenantBundle>, budget: nat, t: TenantBundle)
    requires IsDone(c, t) && forall i :: 0 <= i < |ts| ==> ts[i].tenant != t.tenant
    ensures IsDone(Attempt(c, ts, budget), t)
    decreases |ts|
  {
    hide DoAll, Writes, IsDone;
    if ts != [] {
      if IsDone(c, ts[0]) {
        OtherTenantsKeepDone(c, ts[1..], budget, t);
      } else {
        var ops := Writes(ts[0]);
        WritesLeaveDone(c, ts[0], if budget < |ops| then budget else |ops|, t);
        if budget >= |ops| {
          OtherTenantsKeepDone(DoAll(c, ops), ts[1..], budget - |ops|, t);
        }
      }
    }
  }

  /** An import interrupted anywhere and then run to the end leaves the store of one
      uninterrupted import. */
  lemma {:induction false} InterruptedOnce(c: Contents, ts: seq<TenantBundle>, budget: nat)
    requires Keyed(c) && Verified(ts)
    ensures Complete(Attempt(c, ts, budget), ts) == Complete(c, ts)
    decreases |ts|
  {
    hide DoAll, Writes, Keyed, PlainNodes;
    if ts != [] {
      var t, rest := ts[0], ts[1..];
      var ops := Writes(t);
      if IsDone(c, t) {
        InterruptedOnce(c, rest, budget);
        OtherTenantsKeepDone(c, rest, budget, t);
      } else if budget < |ops| {
        WritesRepeatable(t);
        RestartIsHarmless(c, ops, budget);
        PartialIsNotDone(c, t, budget);
      } else {
        DoAllKeepsKeyed(c, ops);
        WritesMarkDone(c, t);
        InterruptedOnce(DoAll(c, ops), rest, budget - |ops|);
        OtherTenantsKeepDone(DoAll(c, ops), rest, budget - |ops|, t);
      }
    }
  }

  function Attempts(c: Contents, ts: seq<TenantBundle>, budgets: seq<nat>): Contents
    decreases |budgets|
  {
    if budgets == [] then c else Attempts(Attempt(c, ts, budgets[0]), ts, budgets[1..])
  }

  lemma {:induction false} AttemptKeepsKeyed(c: Contents, ts: seq<TenantBundle>, budget: nat)
    requires Keyed(c)
    ensures Keyed(Attempt(c, ts, budget))
    decreases |ts|
  {
    hide Keyed, DoAll, Writes;
    if ts != [] {
      if IsDone(c, ts[0]) {
        AttemptKeepsKeyed(c, ts[1..], budget);
      } else {
        var ops := Writes(ts[0]);
        if budget < |ops| {
          DoAllKeepsKeyed(c, ops[..budget]);
        } else {
          DoAllKeepsKeyed(c, ops);
          AttemptKeepsKeyed(DoAll(c, ops), ts[1..], budget - |ops|);
        }
      }
    }
  }

  /** Any number of interruptions, anywhere, are harmless. */
  lemma {:induction false} ImportResumes(c: Contents, ts: seq<TenantBundle>, budgets: seq<nat>)
    requires Keyed(c) && Verified(ts)
    ensures Complete(Attempts(c, ts, budgets), ts) == Complete(c, ts)
    decreases |budgets|
  {
    hide Complete, Attempt, Keyed, Verified;
    if budgets != [] {
      InterruptedOnce(c, ts, budgets[0]);
      AttemptKeepsKeyed(c, ts, budgets[0]);
      ImportResumes(Attempt(c, ts, budgets[0]), ts, budgets[1..]);
    }
  }

  /** After a complete import every tenant is done, so a later run writes nothing. */
  lemma {:induction false} LaterRunsSkip(c: Contents, ts: seq<TenantBundle>, budget: nat)
    requires Verified(ts)
    ensures var done := Complete(c, ts).done; forall i :: 0 <= i < |ts| ==> (ts[i].tenant, ts[i].sha) in done.Items
    ensures Complete(Complete(c, ts), ts) == Complete(c, ts) == Attempt(Complete(c, ts), ts, budget)
    decreases |ts|
  {
    hide DoAll, Writes, PlainNodes;
    CompleteMarksAll(c, ts);
    AllDoneIsIdle(Complete(c, ts), ts, budget);
  }

  lemma {:induction false} CompleteKeepsDone(c: Contents, ts: seq<TenantBundle>, t: TenantBundle)
    requires IsDone(c, t) && forall i :: 0 <= i < |ts| ==> ts[i].tenant != t.tenant
    ensures IsDone(Complete(c, ts), t)
    decreases |ts|
  {
    hide DoAll, Writes, IsDone;
    if ts != [] {
      WritesLeaveDone(c, ts[0], 0, t);
      CompleteKeepsDone(if IsDone(c, ts[0]) then c else DoAll(c, Writes(ts[0])), ts[1..], t);
    }
  }

  lemma {:induction false} CompleteMarksAll(c: Contents, ts: seq<TenantBundle>)
    requires Verified(ts)
    ensures forall i :: 0 <= i < |ts| ==> IsDone(Complete(c, ts), ts[i])
    decreases |ts|
  {
    hide DoAll, Writes, PlainNodes;
    if ts != [] {
      var next := if IsDone(c, ts[0]) then c else DoAll(c, Writes(ts[0]));
      WritesMarkDone(c, ts[0]);
      CompleteMarksAll(next, ts[1..]);
      CompleteKeepsDone(next, ts[1..], ts[0]);
      assert forall i :: 1 <= i < |ts| ==> ts[i] == ts[1..][i - 1];
    }
  }

  lemma {:induction false} AllDoneIsIdle(c: Contents, ts: seq<TenantBundle>, budget: nat)
    requires forall i :: 0 <= i < |ts| ==> IsDone(c, ts[i])
    ensures Complete(c, ts) == c == Attempt(c, ts, budget)
    decreases |ts|
  {
    if ts != [] { AllDoneIsIdle(c, ts[1..], budget); }
  }

  // ---- an import as one list of writes ----

  /** The writes an import has to do: those of the tenants not yet recorded. */
  function Pending(c: Contents, ts: seq<TenantBundle>): seq<Op> {
    if ts == [] then [] else (if IsDone(c, ts[0]) then [] else Writes(ts[0])) + Pending(c, ts[1..])
  }

  ghost predicate DistinctTenants(ts: seq<TenantBundle>) {
    forall i, j :: 0 <= i < j < |ts| ==> ts[i].tenant != ts[j].tenant
  }

  lemma {:induction false} PendingSpec(c: Contents, ts: seq<TenantBundle>, op: Op)
    ensures op in Pending(c, ts) <==> exists u :: 0 <= u < |ts| && !IsDone(c, ts[u]) && op in Writes(ts[u])
  {
    hide Writes, IsDone;
    if ts != [] {
      PendingSpec(c, ts[1..], op);
      assert forall u :: 1 <= u < |ts| ==> ts[u] == ts[1..][u - 1];
      if u :| 0 <= u < |ts| && !IsDone(c, ts[u]) && op in Writes(ts[u]) {
        assert u > 0 ==> ts[1..][u - 1] == ts[u];
      }
    }
  }

  lemma {:induction false} PendingSame(c: Contents, d: Contents, ts: seq<TenantBundle>)
    requires forall u :: 0 <= u < |ts| ==> (IsDone(c, ts[u]) <==> IsDone(d, ts[u]))
    ensures Pending(c, ts) == Pending(d, ts)
  {
    hide Writes, IsDone;
    if ts != [] { PendingSame(c, d, ts[1..]); }
  }

  /** An import that runs to the end does the pending writes in order, and an interrupted one a
      first part of them. */
  lemma {:induction false} ImportIsItsWrites(c: Contents, ts: seq<TenantBundle>, budget: nat)
    requires DistinctTenants(ts)
    ensures var ops := Pending(c, ts);
      && Complete(c, ts) == DoAll(c, ops)
      && Attempt(c, ts, budget) == DoAll(c, ops[..if budget < |ops| then budget else |ops|])
    decreases |ts|
  {
    hide Writes, DoAll, IsDone;
    var all := Pending(c, ts);
    if ts == [] {
      NothingDone(c, all);
    } else {
      var t, rest := ts[0], ts[1..];
      var ops := Writes(t);
      var next := if IsDone(c, t) then c else DoAll(c, ops);
      var left := if IsDone(c, t) then budget else if budget < |ops| then 0 else budget - |ops|;
      ImportIsItsWrites(next, rest, left);
      forall u | 0 <= u < |rest| ensures IsDone(c, rest[u]) <==> IsDone(next, rest[u]) {
        WritesLeaveDone(c, t, 0, rest[u]);
      }
      PendingSame(c, next, rest);
      var more := Pending(c, rest);
      if !IsDone(c, t) {
        DoAllConcat(c, ops, more);
        if budget < |ops| {
          assert all[..budget] == ops[..budget];
        } else {
          var cut := if left < |more| then left else |more|;
          DoAllConcat(c, ops, more[..cut]);
          assert all[..|ops| + cut] == ops + more[..cut];
        }
      } else {
        assert [] + more == more;
      }
    }
  }

  // ---- what an import cannot touch ----

  ghost predicate SameStanding(c: Contents, d: Contents) {
    && c.nodes.Keys <= d.nodes.Keys
    && forall id :: id in c.nodes ==>
         d.nodes[id].status == c.nodes[id].status && d.nodes[id].validTo == c.nodes[id].validTo
  }

  lemma {:induction false} WritesKeepStanding(c: Contents, ops: seq<Op>)
    requires forall i :: 0 <= i < |ops| && ops[i].PutNode? ==> ops[i].node.status == Active && ops[i].node.validTo.None?
    ensures SameStanding(c, DoAll(c, ops))
  {
    hide JoinConfidence, UnionAnchors, MinEmbedding, MinOptBytes, MergeEdge, CountNewBoth;
    if ops != [] { WritesKeepStanding(c, ops[..|ops| - 1]); }
  }

  lemma WritesAreActive(t: TenantBundle)
    requires PlainNodes(t)
    ensures forall i :: 0 <= i < |Writes(t)| && Writes(t)[i].PutNode? ==>
      Writes(t)[i].node.status == Active && Writes(t)[i].node.validTo.None?
  {
    hide Canonical, Writes;
    WritesSpec(t);
    assert forall i :: 0 <= i < |Writes(t)| ==> TenantOp(t, 0, Writes(t)[i]);
  }

  lemma StandingChain(a: Contents, b: Contents, c: Contents)
    requires SameStanding(a, b) && SameStanding(b, c)
    ensures SameStanding(a, c)
  {
  }

  /** No stored node has its status or end of validity changed, however far an import gets. */
  lemma {:induction false} ImportKeepsStanding(c: Contents, ts: seq<TenantBundle>, budget: nat)
    requires Verified(ts)
    ensures SameStanding(c, Attempt(c, ts, budget)) && SameStanding(c, Complete(c, ts))
    decreases |ts|
  {
    hide DoAll, Writes, SameStanding, PlainNodes, IsDone;
    if ts == [] {
      WritesKeepStanding(c, []);
      NothingDone(c, []);
    } else {
      var ops := Writes(ts[0]);
      WritesAreActive(ts[0]);
      WritesKeepStanding(c, ops);
      var next := if IsDone(c, ts[0]) then c else DoAll(c, ops);
      var left := if IsDone(c, ts[0]) then budget else if budget < |ops| then 0 else budget - |ops|;
      ImportKeepsStanding(next, ts[1..], left);
      if !IsDone(c, ts[0]) {
        StandingChain(c, next, Complete(next, ts[1..]));
        if budget < |ops| {
          WritesKeepStanding(c, ops[..budget]);
        } else {
          StandingChain(c, next, Attempt(next, ts[1..], left));
        }
      }
    }
  }

  /** The anchors matter: a corpus node that is new and has them out of order is stored as it comes
      by an uninterrupted import, and sorted by one that had to start over. */
  lemma UnorderedAnchorsShow(c: Contents, t: TenantBundle)
    requires Keyed(c) && |t.nodes| == 1 && t.edges == [] && !IsDone(c, t)
    requires t.nodes[0].Id() !in c.nodes && !Canonical(t.nodes[0].anchors)
    ensures Complete(Attempt(c, [t], 1), [t]) != Complete(c, [t])
  {
    hide Canonical, MergeNode, Writes, Embedded, IsDone;
    var n := Embedded(t, 0);
    var once := Do(c, PutNode(n));
    OneNodeWrites(t);
    var ops := Writes(t);
    PartialIsNotDone(c, t, 1);
    TwoWrites(c, ops);
    TwoWrites(once, ops);
    assert [t][1..] == [] && !IsDone(once, t);
    assert Attempt(c, [t], 1) == once;
    assert Complete(DoAll(c, ops), []) == DoAll(c, ops) && Complete(DoAll(once, ops), []) == DoAll(once, ops);
    assert Complete(c, [t]) == DoAll(c, ops) && Complete(once, [t]) == DoAll(once, ops);
    assert DoAll(c, ops).nodes == once.nodes && DoAll(once, ops).nodes == Do(once, PutNode(n)).nodes;
    SameIdentity(t, 0);
    DoneIsSettled(c, PutNode(n));
  }

  lemma SameIdentity(t: TenantBundle, i: nat)
    requires i < |t.nodes|
    ensures Embedded(t, i).Id() == t.nodes[i].Id() && Embedded(t, i).anchors == t.nodes[i].anchors
  {
  }

  lemma OneNodeWrites(t: TenantBundle)
    requires |t.nodes| == 1 && t.edges == []
    ensures Writes(t) == [PutNode(Embedded(t, 0)), MarkDone(t.tenant, t.sha)]
  {
    hide Embedded, NodeOrder, EdgeOrder;
    var n := Embedded(t, 0);
    assert Batch(t, 0, 1) == [n] && [n][1..] == [];
    assert Sort(NodeOrder(t.hash), []) == [];
    assert Sort(NodeOrder(t.hash), [n]) == [n] && NodeOps([n]) == [PutNode(n)];
    assert NodeWrites(t, 1) == [] && NodeWrites(t, 0) == [PutNode(n)];
  }

  lemma TwoWrites(c: Contents, ops: seq<Op>)
    requires |ops| == 2
    ensures DoAll(c, ops[..1]) == Do(c, ops[0]) && DoAll(c, ops) == Do(Do(c, ops[0]), ops[1])
  {
    hide Do;
    assert ops[..1][..0] == [] && DoAll(c, ops[..1][..0]) == c;
  }

  // ---- the import as it runs ----

  lemma NothingDone(c: Contents, ops: seq<Op>)
    ensures DoAll(c, ops[..0]) == c && (ops == [] ==> DoAll(c, ops) == c)
  {
  }

  lemma RecordLast(c: Contents, ops: seq<Op>, t: TenantBundle)
    ensures DoAll(c, ops + [MarkDone(t.tenant, t.sha)]) ==
      DoAll(c, ops).(done := DoAll(c, ops).done[t.tenant := t.sha])
  {
    assert (ops + [MarkDone(t.tenant, t.sha)])[..|ops|] == ops;
  }

  /** `budget` writes of an import from (c, ts) leave an import from (c', ts'). */
  ghost predicate Leads(c: Contents, ts: seq<TenantBundle>, budget: nat, c': Contents, ts': seq<TenantBundle>) {
    forall more: nat {:trigger Attempt(c', ts', more)} :: Attempt(c, ts, budget + more) == Attempt(c', ts', more)
  }

  lemma LeadsPastTenant(c: Contents, ts: seq<TenantBundle>, budget: nat, c': Contents, ts': seq<TenantBundle>)
    requires Leads(c, ts, budget, c', ts') && ts' != []
    ensures IsDone(c', ts'[0]) ==> Leads(c, ts, budget, c', ts'[1..])
    ensures !IsDone(c', ts'[0]) ==> Leads(c, ts, budget + |Writes(ts'[0])|, DoAll(c', Writes(ts'[0])), ts'[1..])
  {
    hide DoAll, Writes;
    var n := |Writes(ts'[0])|;
    forall more: nat ensures IsDone(c', ts'[0]) ==> Attempt(c, ts, budget + more) == Attempt(c', ts'[1..], more) {
      assert Attempt(c, ts, budget + more) == Attempt(c', ts', more);
    }
    forall more: nat
      ensures !IsDone(c', ts'[0]) ==>
        Attempt(c, ts, budget + n + more) == Attempt(DoAll(c', Writes(ts'[0])), ts'[1..], more)
    {
      assert Attempt(c, ts, budget + (n + more)) == Attempt(c', ts', n + more);
      assert budget + (n + more) == budget + n + more;
    }
  }

  lemma WholeList(t: TenantBundle)
    ensures Writes(t)[..|Writes(t)|] == Writes(t)
  {
  }

  /** One batch with its vectors, or `None` if one cannot be had. */
  method EmbedBatch(t: TenantBundle, from: nat, size: nat) returns (batch: Option<seq<MemoryNode>>)
    requires from + size <= |t.nodes|
    ensures batch.Some? <==> forall i :: from <= i < from + size ==> t.vectorFor(i, t.nodes[i]).Some?
    ensures batch.Some? ==> batch.value == Batch(t, from, size)
    ensures batch.Some? ==> |batch.value| == size && forall j :: 0 <= j < size ==>
      batch.value[j] == t.nodes[from + j].(embedding := t.vectorFor(from + j, t.nodes[from + j]))
  {
    var ns: seq<MemoryNode> := [];
    for j := 0 to size
      invariant |ns| == j && forall i :: 0 <= i < j ==> ns[i] == Embedded(t, from + i)
      invariant forall i :: from <= i < from + j ==> t.vectorFor(i, t.nodes[i]).Some?
    {
      var v := t.vectorFor(from + j, t.nodes[from + j]);
      if v.None? { return None; }
      ns := ns + [t.nodes[from + j].(embedding := v)];
    }
    batch := Some(ns);
  }

  class ImportStore {
    var nodes: map<ContentHash, MemoryNode>
    var edges: map<EdgeKey, Edge>
    var done: map<Bytes, Bytes>

    ghost function Value(): Contents
      reads this
    {
      Contents(nodes, edges, done)
    }

    /** Merge one batch of nodes into the store, in the order of their ids. */
    method MergeBatch(batch: seq<MemoryNode>, hash: ContentHash -> Bytes)
      modifies this
      ensures Value() == DoAll(old(Value()), NodeOps(Sort(NodeOrder(hash), batch)))
    {
      hide Sort;
      var sorted := Sort(NodeOrder(hash), batch);
      ghost var ops := NodeOps(sorted);
      for j := 0 to |sorted|
        invariant Value() == DoAll(old(Value()), ops[..j])
      {
        assert ops[..j + 1][..j] == ops[..j];
        var n := sorted[j];
        if n.Id() in nodes {
          nodes := nodes[n.Id() := MergeNode(nodes[n.Id()], n).node];
        } else {
          nodes := nodes[n.Id() := n];
        }
      }
      assert ops[..|ops|] == ops;
    }

    /** Merge the edges into the store, in the order of their keys. */
    method MergeEdges(es: seq<Edge>, hash: ContentHash -> Bytes)
      modifies this
      ensures Value() == DoAll(old(Value()), EdgeOps(Sort(EdgeOrder(hash), es)))
    {
      hide Sort, MergeEdge;
      var sorted := Sort(EdgeOrder(hash), es);
      ghost var ops := EdgeOps(sorted);
      for j := 0 to |sorted|
        invariant Value() == DoAll(old(Value()), ops[..j])
      {
        assert ops[..j + 1][..j] == ops[..j];
        var e := sorted[j];
        edges := edges[e.Key() := if e.Key() in edges then MergeEdge(edges[e.Key()], e) else e];
      }
      assert ops[..|ops|] == ops;
    }

    /** Embed and merge a tenant batch by batch, then its edges, then record it as done. A vector
        that cannot be had stops the import where it is. */
    method ImportTenant(t: TenantBundle) returns (ok: bool, ghost written: nat)
      modifies this
      ensures written <= |Writes(t)| && Value() == DoAll(old(Value()), Writes(t)[..written])
      ensures ok <==> written == |Writes(t)|
      ensures ok <==> forall i :: 0 <= i < |t.nodes| ==> t.vectorFor(i, t.nodes[i]).Some?
      ensures !ok ==> written < |t.nodes| && forall i :: 0 <= i < written ==> t.vectorFor(i, t.nodes[i]).Some?
      ensures !ok ==> exists i :: written <= i < written + BatchSize(t, written) && t.vectorFor(i, t.nodes[i]).None?
    {
      hide DoAll, Sort;
      ghost var ops := Writes(t);
      ghost var nodeOps := NodeWrites(t, 0);
      WritesSpec(t);
      ghost var part: seq<Op> := [];
      NothingDone(Value(), part);
      var count := 0;
      while count < |t.nodes|
        invariant count <= |t.nodes| && part + NodeWrites(t, count) == nodeOps && |part| == count
        invariant forall i :: 0 <= i < count ==> t.vectorFor(i, t.nodes[i]).Some?
        invariant Value() == DoAll(old(Value()), part)
      {
        var size := BatchSize(t, count);
        var batch := EmbedBatch(t, count, size);
        if batch.None? {
          written := |part|;
          assert ops[..written] == part;
          return false, written;
        }
        ghost var more := NodeOps(Sort(NodeOrder(t.hash), batch.value));
        BatchSpec(t, count, size);
        MergeBatch(batch.value, t.hash);
        DoAllConcat(old(Value()), part, more);
        part := part + more;
        count := count + size;
        assert part + NodeWrites(t, count) == nodeOps;
      }
      assert part == nodeOps;
      ghost var edgeOps := EdgeOps(Sort(EdgeOrder(t.hash), t.edges));
      MergeEdges(t.edges, t.hash);
      DoAllConcat(old(Value()), part, edgeOps);
      done := done[t.tenant := t.sha];
      RecordLast(old(Value()), part + edgeOps, t);
      ok, written := true, |ops|;
      assert ops[..|ops|] == ops;
    }

    /** Import every tenant not yet recorded as done. */
    method ImportCorpus(ts: seq<TenantBundle>) returns (ok: bool, ghost budget: nat)
      modifies this
      ensures ok ==> Value() == Complete(old(Value()), ts)
      ensures !ok ==> Value() == Attempt(old(Value()), ts, budget)
    {
      hide DoAll, Writes;
      budget := 0;
      assert ts[0..] == ts;
      for i := 0 to |ts|
        invariant Complete(old(Value()), ts) == Complete(Value(), ts[i..])
        invariant Leads(old(Value()), ts, budget, Value(), ts[i..])
      {
        assert ts[i..][0] == ts[i] && ts[i..][1..] == ts[i + 1..];
        LeadsPastTenant(old(Value()), ts, budget, Value(), ts[i..]);
        if ts[i].tenant !in done || done[ts[i].tenant] != ts[i].sha {
          ghost var before := Value();
          var finished, written := ImportTenant(ts[i]);
          WholeList(ts[i]);
          if !finished {
            assert Attempt(before, ts[i..], written) == Value();
            return false, budget + written;
          }
          budget := budget + written;
        }
      }
      ok := true;
      assert ts[|ts|..] == [];
    }
  }
}
