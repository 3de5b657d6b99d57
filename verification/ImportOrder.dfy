/** The writes of an import, told without the functions that produce them: which vector each node
    gets, and in which order things are written. */
module ImportOrder {
  import opened Sorting
  import opened Core
  import opened Join
  import opened Identity
  import opened Import

  // ---- vectors ----

  /** Node `i` of the bundle, carrying vector `i`. */
  ghost predicate CarriesVector(t: TenantBundle, i: int, n: MemoryNode) {
    0 <= i < |t.nodes| && n == t.nodes[i].(embedding := t.vectorFor(i, t.nodes[i]))
  }

  /** The node writes of a tenant are exactly its nodes, each with the vector of its own index,
      whichever batch it falls into. */
  lemma VectorsMatch(t: TenantBundle)
    ensures forall op :: op in Writes(t) && op.PutNode? ==> exists i :: CarriesVector(t, i, op.node)
    ensures forall i :: 0 <= i < |t.nodes| ==>
      PutNode(t.nodes[i].(embedding := t.vectorFor(i, t.nodes[i]))) in Writes(t)
  {
    hide Writes;
    WritesSpec(t);
    forall op | op in Writes(t) && op.PutNode? ensures exists i :: CarriesVector(t, i, op.node) {
      assert TenantOp(t, 0, op);
      var i :| 0 <= i < |t.nodes| && op.node == Embedded(t, i);
      assert CarriesVector(t, i, op.node);
    }
    forall i | 0 <= i < |t.nodes| ensures PutNode(t.nodes[i].(embedding := t.vectorFor(i, t.nodes[i]))) in Writes(t) {
      assert PutNode(Embedded(t, i)) in Writes(t);
    }
  }

  /** Written with one and the same copy, a new node ends with that copy's vector. */
  lemma {:induction false} OneCopyLands(c: Contents, ops: seq<Op>, n: MemoryNode)
    requires n.Id() !in c.nodes
    requires forall op :: op in ops && op.PutNode? && op.node.Id() == n.Id() ==> op.node == n
    ensures n.Id() in DoAll(c, ops).nodes <==> PutNode(n) in ops
    ensures n.Id() in DoAll(c, ops).nodes ==> DoAll(c, ops).nodes[n.Id()].embedding == n.embedding
  {
    hide UnionAnchors, JoinConfidence, MinOptBytes;
    if ops != [] {
      var init, last := ops[..|ops| - 1], ops[|ops| - 1];
      assert ops == init + [last];
      OneCopyLands(c, init, n);
      EmbeddingTwice(n.embedding);
    }
  }

  lemma EmbeddingTwice(v: Option<VersionedVector>)
    ensures MinEmbedding(v, v) == v
  {
  }

  /** After a complete import every new node that the corpus brings once, in a bundle not yet
      recorded with its hash, carries the vector of its own index. */
  lemma VectorsLand(c: Contents, ts: seq<TenantBundle>, u: nat, i: nat)
    requires DistinctTenants(ts) && u < |ts| && i < |ts[u].nodes|
    requires ts[u].tenant in c.done ==> c.done[ts[u].tenant] != ts[u].sha
    requires var id := ts[u].nodes[i].Id();
      && id !in c.nodes
      && forall v, j :: 0 <= v < |ts| && 0 <= j < |ts[v].nodes| && ts[v].nodes[j].Id() == id ==> v == u && j == i
    ensures var n := ts[u].nodes[i];
      && n.Id() in Complete(c, ts).nodes
      && Complete(c, ts).nodes[n.Id()].embedding == ts[u].vectorFor(i, n)
  {
    assert !IsDone(c, ts[u]);
    hide Writes, IsDone, Pending, DoAll, Complete, Attempt;
    var n := ts[u].nodes[i].(embedding := ts[u].vectorFor(i, ts[u].nodes[i]));
    var ops := Pending(c, ts);
    ImportIsItsWrites(c, ts, 0);
    VectorsMatch(ts[u]);
    PendingSpec(c, ts, PutNode(n));
    forall op | op in ops && op.PutNode? && op.node.Id() == n.Id() ensures op.node == n {
      PendingSpec(c, ts, op);
      var v :| 0 <= v < |ts| && !IsDone(c, ts[v]) && op in Writes(ts[v]);
      VectorsMatch(ts[v]);
      var j :| CarriesVector(ts[v], j, op.node);
      assert ts[v].nodes[j].Id() == n.Id();
    }
    OneCopyLands(c, ops, n);
  }

  // ---- order ----

  /** Write `i` of the node part: a node of the same batch of 128, with its vector. */
  ghost predicate FromBatch(t: TenantBundle, i: int, op: Op) {
    op.PutNode? && exists x :: x / 128 == i / 128 && CarriesVector(t, x, op.node)
  }

  /** Two writes of nodes in the order of their ids. */
  ghost predicate ById(t: TenantBundle, a: Op, b: Op) {
    a.PutNode? && b.PutNode? && (a.node == b.node || !Precedes(t.hash(b.node.Id()), t.hash(a.node.Id())))
  }

  lemma {:induction false} NodeWriteAt(t: TenantBundle, from: nat, i: nat, j: nat)
    requires from <= i <= j < |t.nodes| && from % 128 == 0
    ensures |NodeWrites(t, from)| == |t.nodes| - from && FromBatch(t, i, NodeWrites(t, from)[i - from])
    ensures i / 128 == j / 128 ==> ById(t, NodeWrites(t, from)[i - from], NodeWrites(t, from)[j - from])
    decreases |t.nodes| - from
  {
    hide Sort, Batch, NodeOps, FromBatch, ById;
    NodeWritesSpec(t, from);
    var size := BatchSize(t, from);
    var batch := Batch(t, from, size);
    var sorted := Sort(NodeOrder(t.hash), batch);
    BatchLength(t, from, size);
    var first := NodeOps(sorted);
    assert NodeWrites(t, from) == first + NodeWrites(t, from + size);
    hide NodeWrites;
    if i >= from + size {
      NodeWriteAt(t, from + size, i, j);
    } else {
      BatchHolds(t, from, size, i - from);
      if j >= from + size {
        OtherBatch(from, i, j);
      } else {
        BatchInOrder(t, from, size, i - from, j - from);
      }
    }
  }

  lemma OtherBatch(from: nat, i: nat, j: nat)
    requires from % 128 == 0 && from <= i < from + 128 <= j
    ensures i / 128 != j / 128
  {
  }

  lemma SameBatch(from: nat, x: nat, i: nat)
    requires from % 128 == 0 && x < 128 && i < 128
    ensures (from + x) / 128 == (from + i) / 128
  {
  }

  lemma BatchLength(t: TenantBundle, from: nat, size: nat)
    requires from + size <= |t.nodes|
    ensures |NodeOps(Sort(NodeOrder(t.hash), Batch(t, from, size)))| == size
  {
    hide Sort;
    WriteOrders(t.hash);
    SortSorts(NodeOrder(t.hash), Batch(t, from, size));
  }

  lemma BatchHolds(t: TenantBundle, from: nat, size: nat, i: nat)
    requires from + size <= |t.nodes| && from % 128 == 0 && i < size <= 128
    ensures var ops := NodeOps(Sort(NodeOrder(t.hash), Batch(t, from, size)));
      |ops| == size && FromBatch(t, from + i, ops[i])
  {
    hide Sort, NodeOrder;
    BatchLength(t, from, size);
    var batch := Batch(t, from, size);
    var sorted := Sort(NodeOrder(t.hash), batch);
    WriteOrders(t.hash);
    SortSorts(NodeOrder(t.hash), batch);
    assert sorted[i] in sorted && sorted[i] in batch;
    var x :| 0 <= x < size && batch[x] == sorted[i];
    var y, op := from + x, NodeOps(sorted)[i];
    SameBatch(from, x, i);
    assert op == PutNode(Embedded(t, y));
    assert y / 128 == (from + i) / 128 && CarriesVector(t, y, op.node);
  }

  lemma BatchInOrder(t: TenantBundle, from: nat, size: nat, i: nat, j: nat)
    requires from + size <= |t.nodes| && i <= j < size
    ensures var ops := NodeOps(Sort(NodeOrder(t.hash), Batch(t, from, size)));
      |ops| == size && ById(t, ops[i], ops[j])
  {
    hide Sort, Precedes, Batch;
    BatchLength(t, from, size);
    var batch := Batch(t, from, size);
    var sorted := Sort(NodeOrder(t.hash), batch);
    WriteOrders(t.hash);
    SortSorts(NodeOrder(t.hash), batch);
    if i < j { assert NodeOrder(t.hash)(sorted[i], sorted[j]); }
    LexNotAfter(t.hash(sorted[i].Id()), t.hash(sorted[j].Id()));
  }

  lemma LexNotAfter(a: seq<nat>, b: seq<nat>)
    ensures LexLe(a, b) <==> !Precedes(b, a)
  {
    LexMeans(a, b);
    LexMeans(b, a);
    LexTotal(a, b);
    if Precedes(b, a) && a == b { NotBeforeItself(a); }
  }

  lemma NotBeforeItself(a: seq<nat>)
    ensures !Precedes(a, a)
  {
  }

  lemma WriteParts(t: TenantBundle, i: nat)
    requires i < |Writes(t)|
    ensures |Writes(t)| == |t.nodes| + |t.edges| + 1
    ensures |NodeWrites(t, 0)| == |t.nodes| && |Sort(EdgeOrder(t.hash), t.edges)| == |t.edges|
    ensures Writes(t)[i] ==
      if i < |t.nodes| then NodeWrites(t, 0)[i]
      else if i < |t.nodes| + |t.edges| then PutEdge(Sort(EdgeOrder(t.hash), t.edges)[i - |t.nodes|])
      else MarkDone(t.tenant, t.sha)
  {
    hide Sort, NodeWrites;
    NodeWritesSpec(t, 0);
    WriteOrders(t.hash);
    SortSorts(EdgeOrder(t.hash), t.edges);
  }

  /** Nodes are written in batches of 128 as the bundle lists them, inside a batch by the bytes of
      their ids. */
  lemma NodesInOrder(t: TenantBundle, i: nat, j: nat)
    requires i <= j < |t.nodes|
    ensures |Writes(t)| == |t.nodes| + |t.edges| + 1 && FromBatch(t, i, Writes(t)[i])
    ensures i / 128 == j / 128 ==> ById(t, Writes(t)[i], Writes(t)[j])
  {
    hide Sort, NodeWrites, FromBatch, Writes, ById;
    WritesSpec(t);
    WriteParts(t, i);
    WriteParts(t, j);
    NodeWriteAt(t, 0, i, j);
  }

  /** Then the edges by the bytes of source, target and kind, and then the record. */
  lemma EdgesInOrder(t: TenantBundle, i: nat, j: nat)
    requires |t.nodes| <= i < j < |Writes(t)|
    ensures |Writes(t)| == |t.nodes| + |t.edges| + 1 && Writes(t)[i].PutEdge?
    ensures j == |Writes(t)| - 1 ==> Writes(t)[j] == MarkDone(t.tenant, t.sha)
    ensures j < |Writes(t)| - 1 ==>
      Writes(t)[j].PutEdge? && !Precedes(Key65(t, Writes(t)[j].edge), Key65(t, Writes(t)[i].edge))
  {
    hide Sort, Precedes, NodeWrites, Writes;
    WritesSpec(t);
    WriteParts(t, i);
    WriteParts(t, j);
    var sorted := Sort(EdgeOrder(t.hash), t.edges);
    WriteOrders(t.hash);
    SortSorts(EdgeOrder(t.hash), t.edges);
    if j < |Writes(t)| - 1 {
      var a, b := sorted[i - |t.nodes|], sorted[j - |t.nodes|];
      assert EdgeOrder(t.hash)(a, b);
      LexNotAfter(KeyOf(t.hash, a), KeyOf(t.hash, b));
    }
  }

  /** Source, target and kind, in that order. */
  function Key65(t: TenantBundle, e: Edge): Bytes { t.hash(e.from) + t.hash(e.to) + [KindTag(e.kind)] }
}
