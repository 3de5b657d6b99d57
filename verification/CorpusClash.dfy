/** What importing a verified corpus can do to a stored node or edge that the corpus brings again. */
module CorpusClash {
  import opened Sorting
  import opened Core
  import opened Join
  import opened EdgeMerge
  import opened Import
  import opened Corpus

  // ---- contradictions ----

  /** `b` holds evidence for (`side`) or against. Both is evidence for and against. */
  predicate Says(b: Belnap, side: bool) { b == Both || b == (if side then True else False) }

  predicate NodeSays(n: MemoryNode, id: ContentHash, i: nat, side: bool) {
    n.Id() == id && Says(At(n.confidence, i), side)
  }

  /** A tenant still to be imported brings a copy of `id` with such evidence in dimension `i`. */
  ghost predicate Voiced(c: Contents, ts: seq<TenantBundle>, id: ContentHash, i: nat, side: bool) {
    exists u, j ::
      0 <= u < |ts| && !IsDone(c, ts[u]) && 0 <= j < |ts[u].nodes| && NodeSays(ts[u].nodes[j], id, i, side)
  }

  /** Dimension `i` of a stored node is not contradictory, and stored and brought evidence
      together are for and against. */
  ghost predicate Clashes(c: Contents, ts: seq<TenantBundle>, id: ContentHash, i: nat)
    requires id in c.nodes
  {
    At(c.nodes[id].confidence, i) != Both &&
    forall side :: Says(At(c.nodes[id].confidence, i), side) || Voiced(c, ts, id, i, side)
  }

  /** A tenant still to be imported brings this edge. */
  ghost predicate Linking(c: Contents, ts: seq<TenantBundle>, e: Edge) {
    exists u :: 0 <= u < |ts| && !IsDone(c, ts[u]) && e in ts[u].edges
  }

  /** It brings the edge under `k` with such evidence in dimension `i`. */
  ghost predicate LinkVoiced(c: Contents, ts: seq<TenantBundle>, k: EdgeKey, i: nat, side: bool) {
    exists e :: Linking(c, ts, e) && e.Key() == k && Says(At(e.confidence, i), side)
  }

  /** The same clash on a stored edge: the edge merge joins confidence as the node merge does. */
  ghost predicate LinkClashes(c: Contents, ts: seq<TenantBundle>, k: EdgeKey, i: nat)
    requires k in c.edges
  {
    At(c.edges[k].confidence, i) != Both &&
    forall side :: Says(At(c.edges[k].confidence, i), side) || LinkVoiced(c, ts, k, i, side)
  }

  /** No dimension of a stored node or edge became a contradiction. */
  ghost predicate NoneContradicted(c: Contents, d: Contents) {
    && (forall id, i: nat :: id in c.nodes && id in d.nodes && At(d.nodes[id].confidence, i) == Both ==>
          At(c.nodes[id].confidence, i) == Both)
    && (forall k, i: nat :: k in c.edges && k in d.edges && At(d.edges[k].confidence, i) == Both ==>
          At(c.edges[k].confidence, i) == Both)
  }

  lemma MergeSays(a: MemoryNode, b: MemoryNode, i: nat, side: bool)
    ensures Says(At(Merge(a, b).confidence, i), side) <==>
      Says(At(a.confidence, i), side) || Says(At(b.confidence, i), side)
  {
    hide UnionAnchors, MinEmbedding, MinOptBytes;
  }

  /** A stored dimension holds evidence after some writes exactly when it did, or one of the
      writes brought it. */
  lemma {:induction false} WritesSay(c: Contents, ops: seq<Op>, id: ContentHash, i: nat, side: bool)
    requires id in c.nodes
    ensures id in DoAll(c, ops).nodes
    ensures Says(At(DoAll(c, ops).nodes[id].confidence, i), side) <==>
      || Says(At(c.nodes[id].confidence, i), side)
      || exists op :: op in ops && op.PutNode? && NodeSays(op.node, id, i, side)
  {
    hide Merge, Says, At;
    if ops != [] {
      var init, last := ops[..|ops| - 1], ops[|ops| - 1];
      WritesSay(c, init, id, i, side);
      assert ops == init + [last];
      if last.PutNode? && last.node.Id() == id { MergeSays(DoAll(c, init).nodes[id], last.node, i, side); }
    }
  }

  lemma MergeEdgeSays(a: Edge, b: Edge, i: nat, side: bool)
    ensures Says(At(MergeEdge(a, b).confidence, i), side) <==>
      Says(At(a.confidence, i), side) || Says(At(b.confidence, i), side)
  {
    hide AdvisoryLess;
  }

  lemma {:induction false} WritesSayOfEdge(c: Contents, ops: seq<Op>, k: EdgeKey, i: nat, side: bool)
    requires k in c.edges
    ensures k in DoAll(c, ops).edges
    ensures Says(At(DoAll(c, ops).edges[k].confidence, i), side) <==>
      || Says(At(c.edges[k].confidence, i), side)
      || exists e: Edge :: PutEdge(e) in ops && e.Key() == k && Says(At(e.confidence, i), side)
  {
    hide MergeEdge, Says, At;
    if ops != [] {
      var init, last := ops[..|ops| - 1], ops[|ops| - 1];
      WritesSayOfEdge(c, init, k, i, side);
      assert ops == init + [last];
      if last.PutEdge? && last.edge.Key() == k { MergeEdgeSays(DoAll(c, init).edges[k], last.edge, i, side); }
    }
  }

  /** The pending writes bring exactly the evidence that is voiced. */
  lemma PendingSays(c: Contents, ts: seq<TenantBundle>, id: ContentHash, i: nat, side: bool)
    ensures (exists op :: op in Pending(c, ts) && op.PutNode? && NodeSays(op.node, id, i, side)) <==>
      Voiced(c, ts, id, i, side)
  {
    hide Writes, IsDone, Says, At, Pending;
    if op :| op in Pending(c, ts) && op.PutNode? && NodeSays(op.node, id, i, side) {
      PendingSpec(c, ts, op);
      var u :| 0 <= u < |ts| && !IsDone(c, ts[u]) && op in Writes(ts[u]);
      WritesSpec(ts[u]);
      assert TenantOp(ts[u], 0, op);
      var j :| 0 <= j < |ts[u].nodes| && op.node == Embedded(ts[u], j);
      assert NodeSays(ts[u].nodes[j], id, i, side);
    }
    if Voiced(c, ts, id, i, side) {
      var u, j :| 0 <= u < |ts| && !IsDone(c, ts[u]) && 0 <= j < |ts[u].nodes| && NodeSays(ts[u].nodes[j], id, i, side);
      var op := PutNode(Embedded(ts[u], j));
      WritesSpec(ts[u]);
      PendingSpec(c, ts, op);
      assert NodeSays(op.node, id, i, side);
    }
  }

  lemma BothIsForAndAgainst(b: Belnap)
    ensures b == Both <==> Says(b, true) && Says(b, false)
  {
  }

  /** One dimension of one stored node: an import makes it contradictory exactly when stored and
      brought evidence clash, and an interrupted import does only then. */
  lemma ContradictedExactly(c: Contents, ts: seq<TenantBundle>, id: ContentHash, i: nat, budget: nat)
    requires DistinctTenants(ts) && id in c.nodes
    ensures id in Complete(c, ts).nodes && id in Attempt(c, ts, budget).nodes
    ensures At(c.nodes[id].confidence, i) != Both ==>
      (At(Complete(c, ts).nodes[id].confidence, i) == Both <==> Clashes(c, ts, id, i))
    ensures At(c.nodes[id].confidence, i) != Both && At(Attempt(c, ts, budget).nodes[id].confidence, i) == Both ==>
      Clashes(c, ts, id, i)
  {
    hide Writes, IsDone, Says, At, Pending, DoAll, Complete, Attempt, Voiced;
    var ops := Pending(c, ts);
    var part := ops[..if budget < |ops| then budget else |ops|];
    ImportIsItsWrites(c, ts, budget);
    WritesSay(c, ops, id, i, true);
    WritesSay(c, part, id, i, true);
    forall side ensures
        && (Says(At(Complete(c, ts).nodes[id].confidence, i), side) <==>
              Says(At(c.nodes[id].confidence, i), side) || Voiced(c, ts, id, i, side))
        && (Says(At(Attempt(c, ts, budget).nodes[id].confidence, i), side) ==>
              Says(At(c.nodes[id].confidence, i), side) || Voiced(c, ts, id, i, side))
    {
      WritesSay(c, ops, id, i, side);
      WritesSay(c, part, id, i, side);
      assert forall op :: op in part ==> op in ops;
      PendingSays(c, ts, id, i, side);
    }
    BothIsForAndAgainst(At(Complete(c, ts).nodes[id].confidence, i));
    BothIsForAndAgainst(At(Attempt(c, ts, budget).nodes[id].confidence, i));
  }

  /** One dimension of one stored edge, likewise. */
  lemma LinkContradictedExactly(c: Contents, ts: seq<TenantBundle>, k: EdgeKey, i: nat, budget: nat)
    requires DistinctTenants(ts) && k in c.edges
    ensures k in Complete(c, ts).edges && k in Attempt(c, ts, budget).edges
    ensures At(c.edges[k].confidence, i) != Both ==>
      (At(Complete(c, ts).edges[k].confidence, i) == Both <==> LinkClashes(c, ts, k, i))
    ensures At(c.edges[k].confidence, i) != Both && At(Attempt(c, ts, budget).edges[k].confidence, i) == Both ==>
      LinkClashes(c, ts, k, i)
  {
    hide Writes, IsDone, Says, At, Pending, DoAll, Complete, Attempt, Linking;
    var ops := Pending(c, ts);
    var part := ops[..if budget < |ops| then budget else |ops|];
    ImportIsItsWrites(c, ts, budget);
    WritesSayOfEdge(c, ops, k, i, true);
    WritesSayOfEdge(c, part, k, i, true);
    forall side ensures
        && (Says(At(Complete(c, ts).edges[k].confidence, i), side) <==>
              Says(At(c.edges[k].confidence, i), side) || LinkVoiced(c, ts, k, i, side))
        && (Says(At(Attempt(c, ts, budget).edges[k].confidence, i), side) ==>
              Says(At(c.edges[k].confidence, i), side) || LinkVoiced(c, ts, k, i, side))
    {
      WritesSayOfEdge(c, ops, k, i, side);
      WritesSayOfEdge(c, part, k, i, side);
      assert forall op :: op in part ==> op in ops;
      forall e ensures PutEdge(e) in ops <==> Linking(c, ts, e) { PendingLinks(c, ts, e); }
    }
    BothIsForAndAgainst(At(Complete(c, ts).edges[k].confidence, i));
    BothIsForAndAgainst(At(Attempt(c, ts, budget).edges[k].confidence, i));
  }

  /** A verified corpus is documented never to contradict anything stored. It does not, exactly
      unless some dimension of a stored node or edge clashes: nothing in the shape rules looks at
      the confidence a corpus brings. */
  lemma ContradictsExactly(es: seq<(TenantEntry, SyncBundle)>, ts: seq<TenantBundle>, c: Contents, budget: nat)
    requires CorpusOk(es) && Imports(ts, es)
    ensures NoneContradicted(c, Complete(c, ts)) <==>
      && (forall id, i: nat :: id in c.nodes ==> !Clashes(c, ts, id, i))
      && (forall k, i: nat :: k in c.edges ==> !LinkClashes(c, ts, k, i))
    ensures NoneContradicted(c, Complete(c, ts)) ==> NoneContradicted(c, Attempt(c, ts, budget))
  {
    hide BundleOk, Clashes, LinkClashes, Complete, Attempt, At;
    assert DistinctTenants(ts);
    forall id, i: nat | id in c.nodes
      ensures id in Complete(c, ts).nodes && id in Attempt(c, ts, budget).nodes
      ensures At(c.nodes[id].confidence, i) != Both ==>
        (At(Complete(c, ts).nodes[id].confidence, i) == Both <==> Clashes(c, ts, id, i))
      ensures At(c.nodes[id].confidence, i) != Both && At(Attempt(c, ts, budget).nodes[id].confidence, i) == Both ==>
        Clashes(c, ts, id, i)
      ensures At(c.nodes[id].confidence, i) == Both ==> !Clashes(c, ts, id, i)
    {
      ContradictedExactly(c, ts, id, i, budget);
      ClashIsNew(c, ts, id, i);
    }
    forall k, i: nat | k in c.edges
      ensures k in Complete(c, ts).edges && k in Attempt(c, ts, budget).edges
      ensures At(c.edges[k].confidence, i) != Both ==>
        (At(Complete(c, ts).edges[k].confidence, i) == Both <==> LinkClashes(c, ts, k, i))
      ensures At(c.edges[k].confidence, i) != Both && At(Attempt(c, ts, budget).edges[k].confidence, i) == Both ==>
        LinkClashes(c, ts, k, i)
      ensures At(c.edges[k].confidence, i) == Both ==> !LinkClashes(c, ts, k, i)
    {
      LinkContradictedExactly(c, ts, k, i, budget);
      LinkClashIsNew(c, ts, k, i);
    }
  }

  lemma LinkClashIsNew(c: Contents, ts: seq<TenantBundle>, k: EdgeKey, i: nat)
    requires k in c.edges
    ensures LinkClashes(c, ts, k, i) ==> At(c.edges[k].confidence, i) != Both
  {
    hide At, LinkVoiced, Says;
  }

  lemma ClashIsNew(c: Contents, ts: seq<TenantBundle>, id: ContentHash, i: nat)
    requires id in c.nodes
    ensures Clashes(c, ts, id, i) ==> At(c.nodes[id].confidence, i) != Both
  {
    hide At, Voiced, Says;
  }

  /** Brought opinions a stored one cannot take: the other side, or both at once. */
  predicate Opposes(stored: Belnap, brought: Belnap) {
    match stored
    case True => brought == False || brought == Both
    case False => brought == True || brought == Both
    case Neither => brought == Both
    case Both => false
  }

  ghost predicate DistinctIds(ts: seq<TenantBundle>) {
    forall u, v, i, j ::
      (0 <= u < |ts| && 0 <= v < |ts| && 0 <= i < |ts[u].nodes| && 0 <= j < |ts[v].nodes|
       && ts[u].nodes[i].Id() == ts[v].nodes[j].Id()) ==> u == v && i == j
  }

  /** With every id brought once, a clash is one brought copy against the stored node. Brought
      twice, two copies can also contradict each other over a stored Neither. */
  lemma OneCopyClashes(c: Contents, ts: seq<TenantBundle>, id: ContentHash, i: nat)
    requires DistinctIds(ts) && id in c.nodes
    ensures Clashes(c, ts, id, i) <==>
      exists u, j :: 0 <= u < |ts| && !IsDone(c, ts[u]) && 0 <= j < |ts[u].nodes| && ts[u].nodes[j].Id() == id
                     && Opposes(At(c.nodes[id].confidence, i), At(ts[u].nodes[j].confidence, i))
  {
    hide IsDone, At, Says;
    var stored := At(c.nodes[id].confidence, i);
    if Clashes(c, ts, id, i) {
      var side := stored == False;
      SidesOf(stored);
      var u, j :| 0 <= u < |ts| && !IsDone(c, ts[u]) && 0 <= j < |ts[u].nodes|
                  && NodeSays(ts[u].nodes[j], id, i, side);
      if stored == Neither {
        var v, k :| 0 <= v < |ts| && !IsDone(c, ts[v]) && 0 <= k < |ts[v].nodes|
                    && NodeSays(ts[v].nodes[k], id, i, !side);
        assert u == v && j == k;
      }
      OpposesMeans(stored, At(ts[u].nodes[j].confidence, i));
    }
    if u, j :| 0 <= u < |ts| && !IsDone(c, ts[u]) && 0 <= j < |ts[u].nodes| && ts[u].nodes[j].Id() == id
               && Opposes(stored, At(ts[u].nodes[j].confidence, i)) {
      OpposesMeans(stored, At(ts[u].nodes[j].confidence, i));
      forall side ensures Says(stored, side) || Voiced(c, ts, id, i, side) {
        assert Says(stored, side) || NodeSays(ts[u].nodes[j], id, i, side);
      }
    }
  }

  lemma SidesOf(b: Belnap)
    ensures b != Both ==> !Says(b, b == False)
    ensures b == Neither ==> !Says(b, true) && !Says(b, false)
  {
  }

  lemma OpposesMeans(stored: Belnap, brought: Belnap)
    ensures Opposes(stored, brought) <==>
      stored != Both && forall side :: Says(stored, side) || Says(brought, side)
    ensures stored != Both && stored != Neither && Says(brought, stored == False) ==> Opposes(stored, brought)
  {
    SidesOf(stored);
    BothIsForAndAgainst(stored);
    BothIsForAndAgainst(brought);
  }

  /** The case exists for every stored corpus node held to be true: a corpus that passes every
      check turns it into a contradiction. */
  lemma CorpusCanContradict(c: Contents, t: TenantBundle, n: MemoryNode)
    requires PlainNode(t.tenant, n) && n.confidence == [False] && t.tenant in KNOWLEDGE_TENANTS
    requires n.Id() in c.nodes && c.nodes[n.Id()].confidence == [True] && !IsDone(c, t)
    requires t.nodes == [n] && t.edges == []
    ensures var es := [(TenantEntry(t.tenant, 1, 0), SyncBundle(t.tenant, [n], []))];
      CorpusOk(es) && Imports([t], es) && !NoneContradicted(c, Complete(c, [t]))
  {
    hide IsDone, Complete;
    var es := [(TenantEntry(t.tenant, 1, 0), SyncBundle(t.tenant, [n], []))];
    assert BundleOk(es[0].0, es[0].1);
    forall side ensures Says(True, side) || Voiced(c, [t], n.Id(), 0, side) {
      assert [t][0].nodes[0] == n;
      assert !side ==> NodeSays([t][0].nodes[0], n.Id(), 0, side);
    }
    ContradictsExactly(es, [t], c, 0);
    assert Clashes(c, [t], n.Id(), 0);
  }

  // ---- stored links between brought nodes ----

  ghost predicate NoneBefore(before: Edge, ops: seq<Op>, k: EdgeKey) {
    forall e: Edge :: PutEdge(e) in ops && e.Key() == k ==> !AdvisoryLess(e, before)
  }

  /** What the writes left of a stored edge: its advisory fields, or those of a written edge that
      comes before it; and its quarantine only if every writer of the key kept it. */
  ghost predicate EdgeAfter(before: Edge, after: Edge, ops: seq<Op>, k: EdgeKey) {
    && (after.quarantined <==>
          before.quarantined && forall e: Edge :: PutEdge(e) in ops && e.Key() == k ==> e.quarantined)
    && (|| (SameAdvisory(after, before) && NoneBefore(before, ops, k))
        || (exists e: Edge :: PutEdge(e) in ops && e.Key() == k && AdvisoryLess(e, before) && SameAdvisory(after, e)))
  }

  lemma {:induction false} WritesMergeEdge(c: Contents, ops: seq<Op>, k: EdgeKey)
    requires k in c.edges
    ensures k in DoAll(c, ops).edges && EdgeAfter(c.edges[k], DoAll(c, ops).edges[k], ops, k)
  {
    hide AdvisoryLess, EdgeAfter, MergeEdge;
    if ops == [] {
      NoEdgeWrites(c.edges[k], ops, k);
    } else {
      var init, last := ops[..|ops| - 1], ops[|ops| - 1];
      WritesMergeEdge(c, init, k);
      assert ops == init + [last];
      OneMoreEdge(c.edges[k], DoAll(c, init).edges[k], DoAll(c, ops).edges[k], init, last, k);
    }
  }

  lemma NoEdgeWrites(e: Edge, ops: seq<Op>, k: EdgeKey)
    requires ops == []
    ensures EdgeAfter(e, e, ops, k)
  {
    hide AdvisoryLess;
  }

  lemma OneMoreEdge(before: Edge, mid: Edge, after: Edge, init: seq<Op>, last: Op, k: EdgeKey)
    requires EdgeAfter(before, mid, init, k)
    requires after == if last.PutEdge? && last.edge.Key() == k then MergeEdge(mid, last.edge) else mid
    ensures EdgeAfter(before, after, init + [last], k)
  {
    hide AdvisoryLess, JoinConfidence;
    var ops := init + [last];
    assert forall op :: op in ops <==> op in init || op == last;
    if last.PutEdge? && last.edge.Key() == k {
      var e := last.edge;
      if SameAdvisory(mid, before) && NoneBefore(before, init, k) {
        AdvisorySame(mid, before, e);
      } else {
        var x: Edge :| PutEdge(x) in init && x.Key() == k && AdvisoryLess(x, before) && SameAdvisory(mid, x);
        AdvisorySame(mid, x, e);
        AdvisoryChain(e, x, before);
        if AdvisoryLess(e, mid) { assert PutEdge(e) in ops; } else { assert PutEdge(x) in ops; }
      }
    } else if exists x: Edge :: PutEdge(x) in init && x.Key() == k && AdvisoryLess(x, before) && SameAdvisory(mid, x) {
      var x: Edge :| PutEdge(x) in init && x.Key() == k && AdvisoryLess(x, before) && SameAdvisory(mid, x);
      assert PutEdge(x) in ops;
    }
  }

  /** What an import does to a stored edge: it lifts the quarantine exactly when the corpus brings
      the edge too; it replaces trust tier, plane, provenance and signature exactly when a brought
      copy comes first in the merge's order, then by those of such a copy; and it adds exactly the
      brought evidence to its confidence. The shape rules look at neither tier nor confidence. */
  lemma LinksExactly(es: seq<(TenantEntry, SyncBundle)>, ts: seq<TenantBundle>, c: Contents, k: EdgeKey)
    requires CorpusOk(es) && Imports(ts, es) && k in c.edges
    ensures k in Complete(c, ts).edges
    ensures var before, after := c.edges[k], Complete(c, ts).edges[k];
      && (after.quarantined <==> before.quarantined && !exists e: Edge :: Linking(c, ts, e) && e.Key() == k)
      && (SameAdvisory(after, before) <==>
            !exists e: Edge :: Linking(c, ts, e) && e.Key() == k && AdvisoryLess(e, before))
      && (SameAdvisory(after, before) || exists e: Edge :: Linking(c, ts, e) && e.Key() == k && SameAdvisory(after, e))
      && (forall i: nat, side :: Says(At(after.confidence, i), side) <==>
            Says(At(before.confidence, i), side) || LinkVoiced(c, ts, k, i, side))
  {
    hide Writes, IsDone, Pending, DoAll, Complete, Attempt, AdvisoryLess, Linking, Says, At;
    assert DistinctTenants(ts);
    ImportIsItsWrites(c, ts, 0);
    var ops := Pending(c, ts);
    WritesMergeEdge(c, ops, k);
    forall e: Edge ensures PutEdge(e) in ops <==> Linking(c, ts, e)
                   ensures Linking(c, ts, e) ==> !e.quarantined
    {
      PendingLinks(c, ts, e);
      BroughtLinkIsOpen(es, ts, c, e);
    }
    var before, after := c.edges[k], Complete(c, ts).edges[k];
    if x: Edge :| PutEdge(x) in ops && x.Key() == k && AdvisoryLess(x, before) && SameAdvisory(after, x) {
      AdvisorySame(after, x, before);
      if SameAdvisory(after, before) {
        AdvisorySame(after, before, before);
        AdvisoryOrder(before, before, before);
      }
    }
    forall i: nat, side ensures Says(At(after.confidence, i), side) <==>
        Says(At(before.confidence, i), side) || LinkVoiced(c, ts, k, i, side)
    {
      WritesSayOfEdge(c, ops, k, i, side);
    }
  }

  lemma PendingLinks(c: Contents, ts: seq<TenantBundle>, e: Edge)
    ensures PutEdge(e) in Pending(c, ts) <==> Linking(c, ts, e)
  {
    hide Writes, IsDone, Pending;
    PendingSpec(c, ts, PutEdge(e));
    forall u | 0 <= u < |ts| ensures PutEdge(e) in Writes(ts[u]) <==> e in ts[u].edges {
      WritesSpec(ts[u]);
      assert PutEdge(e) in Writes(ts[u]) ==> TenantOp(ts[u], 0, PutEdge(e));
    }
  }

  lemma BroughtLinkIsOpen(es: seq<(TenantEntry, SyncBundle)>, ts: seq<TenantBundle>, c: Contents, e: Edge)
    requires CorpusOk(es) && Imports(ts, es)
    ensures Linking(c, ts, e) ==> !e.quarantined
  {
    hide IsDone, BundleOk;
    if u :| 0 <= u < |ts| && !IsDone(c, ts[u]) && e in ts[u].edges {
      LinksAreOpen(es[u].0, es[u].1, e);
    }
  }

  lemma LinksAreOpen(t: TenantEntry, b: SyncBundle, e: Edge)
    requires BundleOk(t, b) && e in b.edges
    ensures !e.quarantined
  {
    hide PlainNode;
    var i :| 0 <= i < |b.edges| && b.edges[i] == e;
    assert PlainLink(IdsOf(b.nodes), b.edges[i]);
  }

  /** All three happen: a corpus that passes every check lifts the quarantine of a stored link,
      lowers its tier and contradicts it. */
  lemma CorpusCanRelabelLink(c: Contents, t: TenantBundle, n: MemoryNode, e: Edge)
    requires PlainNode(t.tenant, n) && PlainLink({n.Id()}, e) && t.tenant in KNOWLEDGE_TENANTS
    requires t.nodes == [n] && t.edges == [e] && !IsDone(c, t) && e.Key() in c.edges
    requires e.confidence == [False] && e.trustTier == InferredAdvisory
    requires var stored := c.edges[e.Key()];
      stored.quarantined && stored.confidence == [True] && stored.trustTier == DerivedDeterministic
    ensures var es := [(TenantEntry(t.tenant, 1, 1), SyncBundle(t.tenant, [n], [e]))];
      && CorpusOk(es) && Imports([t], es) && e.Key() in Complete(c, [t]).edges
      && !NoneContradicted(c, Complete(c, [t]))
      && var after := Complete(c, [t]).edges[e.Key()];
         !after.quarantined && after.trustTier == InferredAdvisory && At(after.confidence, 0) == Both
  {
    hide IsDone, Complete, BytesLess;
    var es := [(TenantEntry(t.tenant, 1, 1), SyncBundle(t.tenant, [n], [e]))];
    assert IdsOf([n]) == {n.Id()} by { assert [n][0] == n; }
    assert BundleOk(es[0].0, es[0].1);
    var k := e.Key();
    assert [t][0].edges == [e] && Linking(c, [t], e);
    LinksExactly(es, [t], c, k);
    var before, after := c.edges[k], Complete(c, [t]).edges[k];
    assert AdvisoryLess(e, before);
    forall x: Edge | Linking(c, [t], x) ensures x == e { assert x in [e]; }
    assert Says(At(before.confidence, 0), true) && LinkVoiced(c, [t], k, 0, false);
    BothIsForAndAgainst(At(after.confidence, 0));
  }

  // ---- the other fields of a stored node ----

  /** A copy of `id` among the writes. */
  ghost predicate Copy(ops: seq<Op>, id: ContentHash, n: MemoryNode) { PutNode(n) in ops && n.Id() == id }

  /** What the copies of `id` among some writes leave of a stored node: standing, trust and
      signature as they were; the union of anchors; the earliest of the times; one of the
      embeddings. */
  ghost predicate NodeAfter(before: MemoryNode, after: MemoryNode, ops: seq<Op>, id: ContentHash) {
    && after.status == before.status && after.validTo == before.validTo
    && after.trustTier == before.trustTier && after.signature == before.signature
    && (forall x :: x in after.anchors <==> x in before.anchors || exists n :: Copy(ops, id, n) && x in n.anchors)
    && Earliest(before.validFrom, after.validFrom, ops, id, (n: MemoryNode) => n.validFrom)
    && Earliest(before.observedAt, after.observedAt, ops, id, (n: MemoryNode) => n.observedAt)
    && (after.embedding == before.embedding || exists n :: Copy(ops, id, n) && after.embedding == n.embedding)
  }

  ghost predicate Earliest(before: nat, after: nat, ops: seq<Op>, id: ContentHash, time: MemoryNode -> nat) {
    && after <= before && (forall n :: Copy(ops, id, n) ==> after <= time(n))
    && (after == before || exists n :: Copy(ops, id, n) && after == time(n))
  }

  ghost predicate PlainWrite(op: Op) {
    op.PutNode? ==>
      && op.node.status == Active && op.node.validTo.None?
      && op.node.trustTier == DerivedDeterministic && op.node.signature.None?
  }

  lemma {:induction false} WritesMergeNode(c: Contents, ops: seq<Op>, id: ContentHash)
    requires id in c.nodes && forall op :: op in ops ==> PlainWrite(op)
    ensures id in DoAll(c, ops).nodes && NodeAfter(c.nodes[id], DoAll(c, ops).nodes[id], ops, id)
  {
    hide NodeAfter, Merge, PlainWrite;
    if ops == [] {
      NoNodeWrites(c.nodes[id], ops, id);
    } else {
      var init, last := ops[..|ops| - 1], ops[|ops| - 1];
      assert ops == init + [last];
      WritesMergeNode(c, init, id);
      OneMoreNode(c.nodes[id], DoAll(c, init).nodes[id], DoAll(c, ops).nodes[id], init, last, id);
    }
  }

  lemma NoNodeWrites(n: MemoryNode, ops: seq<Op>, id: ContentHash)
    requires ops == []
    ensures NodeAfter(n, n, ops, id)
  {
  }

  lemma OneMoreNode(before: MemoryNode, mid: MemoryNode, after: MemoryNode, init: seq<Op>, last: Op, id: ContentHash)
    requires NodeAfter(before, mid, init, id) && PlainWrite(last)
    requires after == if last.PutNode? && last.node.Id() == id then Merge(mid, last.node) else mid
    ensures NodeAfter(before, after, init + [last], id)
  {
    hide UnionAnchors, JoinConfidence, MinEmbedding, Earliest;
    var ops := init + [last];
    forall n ensures Copy(ops, id, n) <==> Copy(init, id, n) || (last == PutNode(n) && n.Id() == id) {
      assert PutNode(n) in ops <==> PutNode(n) in init || last == PutNode(n);
    }
    OneMoreTime(before.validFrom, mid.validFrom, after.validFrom, init, last, id, (n: MemoryNode) => n.validFrom);
    OneMoreTime(before.observedAt, mid.observedAt, after.observedAt, init, last, id, (n: MemoryNode) => n.observedAt);
    if last.PutNode? && last.node.Id() == id {
      assert Copy(ops, id, last.node);
      UnionSpec(mid.anchors, last.node.anchors);
      OneOfTwo(mid.embedding, last.node.embedding);
    }
  }

  lemma OneOfTwo(a: Option<VersionedVector>, b: Option<VersionedVector>)
    ensures MinEmbedding(a, b) == a || MinEmbedding(a, b) == b
  {
  }

  lemma OneMoreTime(before: nat, mid: nat, after: nat, init: seq<Op>, last: Op, id: ContentHash,
                    time: MemoryNode -> nat)
    requires Earliest(before, mid, init, id, time)
    requires after == if last.PutNode? && last.node.Id() == id then Min(mid, time(last.node)) else mid
    ensures Earliest(before, after, init + [last], id, time)
  {
    var ops := init + [last];
    forall n ensures Copy(ops, id, n) <==> Copy(init, id, n) || (last == PutNode(n) && n.Id() == id) {
      assert PutNode(n) in ops <==> PutNode(n) in init || last == PutNode(n);
    }
    if last.PutNode? && last.node.Id() == id { assert Copy(ops, id, last.node); }
    if n :| Copy(init, id, n) && mid == time(n) { assert Copy(ops, id, n); }
  }

  /** What an import does to a stored node besides its confidence. The shape rules look at neither
      anchors nor times, so a corpus can add anchors to a stored node it brings again and move its
      times back. */
  lemma NodesExactly(es: seq<(TenantEntry, SyncBundle)>, ts: seq<TenantBundle>, c: Contents, id: ContentHash)
    requires CorpusOk(es) && Imports(ts, es) && id in c.nodes
    ensures id in Complete(c, ts).nodes && NodeAfter(c.nodes[id], Complete(c, ts).nodes[id], Pending(c, ts), id)
  {
    hide Writes, IsDone, Pending, DoAll, Complete, Attempt, NodeAfter, PlainWrite, BundleOk;
    assert DistinctTenants(ts);
    ImportIsItsWrites(c, ts, 0);
    forall op | op in Pending(c, ts) ensures PlainWrite(op) {
      PendingSpec(c, ts, op);
      var u :| 0 <= u < |ts| && !IsDone(c, ts[u]) && op in Writes(ts[u]);
      TenantWritesPlain(es[u].0, es[u].1, ts[u], op);
    }
    WritesMergeNode(c, Pending(c, ts), id);
  }

  lemma TenantWritesPlain(t: TenantEntry, b: SyncBundle, u: TenantBundle, op: Op)
    requires BundleOk(t, b) && u.nodes == b.nodes && op in Writes(u)
    ensures PlainWrite(op)
  {
    hide Writes, CorpusId;
    WritesSpec(u);
    assert TenantOp(u, 0, op);
    if op.PutNode? {
      var j :| 0 <= j < |u.nodes| && op.node == Embedded(u, j);
      assert PlainNode(t.tenant, b.nodes[j]);
    }
  }
}
