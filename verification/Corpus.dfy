/** What verification lets a corpus say (crates/mem-corpus/src/import.rs), and how far its documented
    law holds that an import only adds: nothing stored is retired and nothing outside the corpus is
    touched, but what the corpus brings again can be contradicted and re-labelled. */
module Corpus {
  import opened Sorting
  import opened Core
  import opened Join
  import opened Framing
  import opened EdgeMerge
  import opened Import

  const KNOWLEDGE_TENANTS: set<Bytes> := {Ascii("citrate-docs"), Ascii("methodology"), Ascii("refs"), Ascii("skills")}

  /** A manifest entry and the bundle its file holds. */
  datatype TenantEntry = TenantEntry(tenant: Bytes, nodes: nat, edges: nat)

  datatype SyncBundle = SyncBundle(repo: Bytes, nodes: seq<MemoryNode>, edges: seq<Edge>)

  // ---- the shape rules ----

  /** An id a corpus of this tenant may use. */
  predicate CorpusId(tenant: Bytes, id: ContentHash) {
    id.repo == tenant && id.plane == Derived && HasPrefix(id.author, Ascii("corpus:"))
  }

  predicate PlainNode(tenant: Bytes, n: MemoryNode) {
    && CorpusId(tenant, n.Id()) && n.trustTier == DerivedDeterministic && n.signature.None?
    && n.status == Active && n.validTo.None?
  }

  predicate CorpusKind(k: EdgeKind) { k == DerivedFrom || k == References }

  predicate PlainLink(ids: set<ContentHash>, e: Edge) {
    CorpusKind(e.kind) && e.plane == Derived && !e.quarantined && e.signature.None? && e.from in ids && e.to in ids
  }

  ghost function IdsOf(ns: seq<MemoryNode>): set<ContentHash> {
    set i | 0 <= i < |ns| :: ns[i].Id()
  }

  ghost predicate BundleOk(t: TenantEntry, b: SyncBundle) {
    && b.repo == t.tenant && |b.nodes| == t.nodes && |b.edges| == t.edges
    && (forall i :: 0 <= i < |b.nodes| ==> PlainNode(t.tenant, b.nodes[i]))
    && (forall i :: 0 <= i < |b.edges| ==> PlainLink(IdsOf(b.nodes), b.edges[i]))
  }

  /** The shape rules field by field. */
  lemma BundleMeans(t: TenantEntry, b: SyncBundle)
    ensures BundleOk(t, b) <==>
      && b.repo == t.tenant && |b.nodes| == t.nodes && |b.edges| == t.edges
      && (forall n :: n in b.nodes ==>
            && n.repo == t.tenant && n.plane == Derived && Ascii("corpus:") <= n.author
            && n.trustTier == DerivedDeterministic && n.signature == None && n.status == Active && n.validTo == None)
      && (forall e :: e in b.edges ==>
            && (e.kind == DerivedFrom || e.kind == References) && e.plane == Derived && !e.quarantined
            && e.signature == None && (exists n :: n in b.nodes && n.Id() == e.from)
            && exists n :: n in b.nodes && n.Id() == e.to)
  {
    hide HasPrefix, Ascii;
    forall n: MemoryNode ensures HasPrefix(n.author, Ascii("corpus:")) <==> Ascii("corpus:") <= n.author {
      PrefixIs(n.author, Ascii("corpus:"));
    }
    forall id ensures id in IdsOf(b.nodes) <==> exists n :: n in b.nodes && n.Id() == id {
      if n :| n in b.nodes && n.Id() == id {
        var i :| 0 <= i < |b.nodes| && b.nodes[i] == n;
      }
    }
    assert forall i :: 0 <= i < |b.nodes| ==> b.nodes[i] in b.nodes;
    assert forall i :: 0 <= i < |b.edges| ==> b.edges[i] in b.edges;
  }

  method CheckBundle(t: TenantEntry, b: SyncBundle) returns (ok: bool)
    ensures ok <==> BundleOk(t, b)
  {
    hide PlainNode, PlainLink;
    if b.repo != t.tenant || |b.nodes| != t.nodes || |b.edges| != t.edges { return false; }
    var ids: set<ContentHash> := {};
    for i := 0 to |b.nodes|
      invariant ids == IdsOf(b.nodes[..i])
      invariant forall j :: 0 <= j < i ==> PlainNode(t.tenant, b.nodes[j])
    {
      if !PlainNode(t.tenant, b.nodes[i]) { return false; }
      OneMoreId(b.nodes, i);
      ids := ids + {b.nodes[i].Id()};
    }
    assert b.nodes[..|b.nodes|] == b.nodes;
    for i := 0 to |b.edges|
      invariant forall j :: 0 <= j < i ==> PlainLink(ids, b.edges[j])
    {
      if !PlainLink(ids, b.edges[i]) { return false; }
    }
    ok := true;
  }

  lemma OneMoreId(ns: seq<MemoryNode>, i: nat)
    requires i < |ns|
    ensures IdsOf(ns[..i + 1]) == IdsOf(ns[..i]) + {ns[i].Id()}
  {
    assert forall j :: 0 <= j < i ==> ns[..i + 1][j] == ns[..i][j];
    assert ns[..i + 1][i] == ns[i];
  }

  ghost predicate Knowledge(tenant: Bytes) {
    || tenant == Ascii("citrate-docs") || tenant == Ascii("methodology")
    || tenant == Ascii("refs") || tenant == Ascii("skills")
  }

  ghost predicate CorpusOk(es: seq<(TenantEntry, SyncBundle)>) {
    && (forall i :: 0 <= i < |es| ==> Knowledge(es[i].0.tenant) && BundleOk(es[i].0, es[i].1))
    && (forall i, j :: 0 <= i < j < |es| ==> es[i].0.tenant != es[j].0.tenant)
  }

  /** The tenant loop: knowledge tenants only, each listed once, every bundle in shape. */
  method VerifyTenants(es: seq<(TenantEntry, SyncBundle)>) returns (ok: bool)
    ensures ok <==> CorpusOk(es)
  {
    hide BundleOk;
    var seen: set<Bytes> := {};
    for i := 0 to |es|
      invariant forall j :: 0 <= j < i ==> es[j].0.tenant in seen
      invariant forall x :: x in seen ==> Listed(es, i, x)
      invariant forall j :: 0 <= j < i ==> Knowledge(es[j].0.tenant) && BundleOk(es[j].0, es[j].1)
      invariant forall j, k :: 0 <= j < k < i ==> es[j].0.tenant != es[k].0.tenant
    {
      var t := es[i].0;
      if t.tenant !in KNOWLEDGE_TENANTS { return false; }
      if t.tenant in seen {
        ghost var j :| 0 <= j < i && es[j].0.tenant == t.tenant;
        return false;
      }
      var shaped := CheckBundle(t, es[i].1);
      if !shaped { return false; }
      ListedStays(es, i);
      seen := seen + {t.tenant};
    }
    ok := true;
  }

  /** A tenant among the first `i`. */
  ghost predicate Listed(es: seq<(TenantEntry, SyncBundle)>, i: nat, x: Bytes) {
    exists j :: 0 <= j < i && j < |es| && es[j].0.tenant == x
  }

  lemma ListedStays(es: seq<(TenantEntry, SyncBundle)>, i: nat)
    requires i < |es|
    ensures Listed(es, i + 1, es[i].0.tenant) && forall x :: Listed(es, i, x) ==> Listed(es, i + 1, x)
  {
  }

  // ---- what a verified corpus can do ----

  /** The bundles to import are those that were verified, with their hashes and vectors. */
  ghost predicate Imports(ts: seq<TenantBundle>, es: seq<(TenantEntry, SyncBundle)>) {
    |ts| == |es| && forall i :: 0 <= i < |ts| ==>
      ts[i].tenant == es[i].0.tenant && ts[i].nodes == es[i].1.nodes && ts[i].edges == es[i].1.edges
  }

  /** An id some tenant of the corpus brings. */
  ghost predicate Brought(ts: seq<TenantBundle>, id: ContentHash) {
    exists i :: 0 <= i < |ts| && id in IdsOf(ts[i].nodes)
  }

  /** Nodes: all still there, standing as before, and untouched unless the corpus brings them.
      Edges: all still there, and untouched unless they are corpus links between two nodes the
      corpus brings. */
  ghost predicate OnlyAdds(ts: seq<TenantBundle>, c: Contents, d: Contents) {
    && SameStanding(c, d)
    && (forall id :: id in d.nodes && !Brought(ts, id) ==> id in c.nodes && d.nodes[id] == c.nodes[id])
    && c.edges.Keys <= d.edges.Keys
    && (forall k :: k in d.edges && !(CorpusKind(k.kind) && Brought(ts, k.from) && Brought(ts, k.to)) ==>
          k in c.edges && d.edges[k] == c.edges[k])
  }

  ghost predicate CorpusWrite(ts: seq<TenantBundle>, op: Op) {
    match op
    case PutNode(n) => Brought(ts, n.Id()) && n.status == Active && n.validTo.None?
    case PutEdge(e) => CorpusKind(e.kind) && Brought(ts, e.from) && Brought(ts, e.to)
    case MarkDone(_, _) => true
  }

  lemma AddsThenAdds(ts: seq<TenantBundle>, a: Contents, b: Contents, c: Contents)
    requires OnlyAdds(ts, a, b) && OnlyAdds(ts, b, c)
    ensures OnlyAdds(ts, a, c)
  {
    hide Brought;
  }

  lemma WriteOnlyAdds(ts: seq<TenantBundle>, c: Contents, op: Op)
    requires CorpusWrite(ts, op)
    ensures OnlyAdds(ts, c, Do(c, op))
  {
    hide Brought, JoinConfidence, UnionAnchors, MinEmbedding, MinOptBytes, MergeEdge, CountNewBoth;
  }

  lemma {:induction false} WritesOnlyAdd(ts: seq<TenantBundle>, c: Contents, ops: seq<Op>)
    requires forall i :: 0 <= i < |ops| ==> CorpusWrite(ts, ops[i])
    ensures OnlyAdds(ts, c, DoAll(c, ops))
  {
    hide OnlyAdds, CorpusWrite, Do;
    if ops == [] {
      NothingAdds(ts, c);
    } else {
      WritesOnlyAdd(ts, c, ops[..|ops| - 1]);
      WriteOnlyAdds(ts, DoAll(c, ops[..|ops| - 1]), ops[|ops| - 1]);
      AddsThenAdds(ts, c, DoAll(c, ops[..|ops| - 1]), DoAll(c, ops));
    }
  }

  lemma NothingAdds(ts: seq<TenantBundle>, c: Contents)
    ensures OnlyAdds(ts, c, c)
  {
    hide Brought;
  }

  lemma TenantWrites(es: seq<(TenantEntry, SyncBundle)>, ts: seq<TenantBundle>, i: nat)
    requires CorpusOk(es) && Imports(ts, es) && i < |ts|
    ensures forall j :: 0 <= j < |Writes(ts[i])| ==> CorpusWrite(ts, Writes(ts[i])[j])
  {
    hide CorpusId, Writes;
    var t := ts[i];
    assert BundleOk(es[i].0, es[i].1);
    WritesSpec(t);
    assert forall id :: id in IdsOf(t.nodes) ==> Brought(ts, id);
    forall j | 0 <= j < |Writes(t)| ensures CorpusWrite(ts, Writes(t)[j]) {
      var op := Writes(t)[j];
      assert TenantOp(t, 0, op);
      match op {
        case PutNode(n) =>
          var k :| 0 <= k < |t.nodes| && n == Embedded(t, k);
          assert PlainNode(t.tenant, t.nodes[k]);
          assert n.Id() == t.nodes[k].Id();
        case PutEdge(e) =>
          var k :| 0 <= k < |t.edges| && e == t.edges[k];
          assert PlainLink(IdsOf(t.nodes), t.edges[k]);
        case MarkDone(_, _) =>
      }
    }
  }

  lemma {:induction false} RestOnlyAdds(es: seq<(TenantEntry, SyncBundle)>, ts: seq<TenantBundle>, c: Contents,
                                        from: nat, budget: nat)
    requires CorpusOk(es) && Imports(ts, es) && from <= |ts|
    ensures OnlyAdds(ts, c, Attempt(c, ts[from..], budget)) && OnlyAdds(ts, c, Complete(c, ts[from..]))
    decreases |ts| - from
  {
    hide OnlyAdds, CorpusOk, Imports, CorpusWrite, Writes, DoAll;
    NothingAdds(ts, c);
    if from < |ts| {
      var t, ops := ts[from], Writes(ts[from]);
      assert ts[from..][0] == t && ts[from..][1..] == ts[from + 1..];
      TenantWrites(es, ts, from);
      WritesOnlyAdd(ts, c, ops);
      var next := if IsDone(c, t) then c else DoAll(c, ops);
      var left := if IsDone(c, t) then budget else if budget < |ops| then 0 else budget - |ops|;
      RestOnlyAdds(es, ts, next, from + 1, left);
      AddsThenAdds(ts, c, next, Complete(next, ts[from + 1..]));
      AddsThenAdds(ts, c, next, Attempt(next, ts[from + 1..], left));
      if !IsDone(c, t) && budget < |ops| { WritesOnlyAdd(ts, c, ops[..budget]); }
    }
  }

  /** However far the import of a verified corpus gets, nothing stored is retired, nothing outside
      the corpus's own Derived nodes of its own tenants is touched, and no edge but a corpus link
      between two of them. What it can do to those nodes and links is the subject of
      CorpusClash. */
  lemma CorpusOnlyAdds(es: seq<(TenantEntry, SyncBundle)>, ts: seq<TenantBundle>, c: Contents, budget: nat)
    requires CorpusOk(es) && Imports(ts, es)
    ensures OnlyAdds(ts, c, Attempt(c, ts, budget)) && OnlyAdds(ts, c, Complete(c, ts))
    ensures forall id :: Brought(ts, id) ==> id.repo in KNOWLEDGE_TENANTS && CorpusId(id.repo, id)
  {
    hide OnlyAdds, CorpusOk, Imports, CorpusId;
    assert ts[0..] == ts;
    RestOnlyAdds(es, ts, c, 0, budget);
    forall id | Brought(ts, id) ensures id.repo in KNOWLEDGE_TENANTS && CorpusId(id.repo, id) {
      BroughtIsCorpus(es, ts, id);
    }
  }

  lemma BroughtIsCorpus(es: seq<(TenantEntry, SyncBundle)>, ts: seq<TenantBundle>, id: ContentHash)
    requires CorpusOk(es) && Imports(ts, es) && Brought(ts, id)
    ensures id.repo in KNOWLEDGE_TENANTS && CorpusId(id.repo, id)
  {
    hide HasPrefix;
    var i :| 0 <= i < |ts| && id in IdsOf(ts[i].nodes);
    var j :| 0 <= j < |ts[i].nodes| && ts[i].nodes[j].Id() == id;
    assert BundleOk(es[i].0, es[i].1);
    assert PlainNode(es[i].0.tenant, es[i].1.nodes[j]);
  }

  /** Verification gives what resuming needs, up to the order of anchors. */
  lemma VerifiedCorpusResumes(es: seq<(TenantEntry, SyncBundle)>, ts: seq<TenantBundle>)
    requires CorpusOk(es) && Imports(ts, es)
    ensures Verified(ts) <==>
      forall i, j :: 0 <= i < |ts| && 0 <= j < |ts[i].nodes| ==> Canonical(ts[i].nodes[j].anchors)
  {
    hide Canonical, CorpusId;
    forall i, j | 0 <= i < |ts| && 0 <= j < |ts[i].nodes|
      ensures ts[i].nodes[j].status == Active && ts[i].nodes[j].validTo.None?
    {
      assert BundleOk(es[i].0, es[i].1);
      assert PlainNode(es[i].0.tenant, es[i].1.nodes[j]);
    }
    if Verified(ts) {
      forall i, j | 0 <= i < |ts| && 0 <= j < |ts[i].nodes| ensures Canonical(ts[i].nodes[j].anchors) {
        assert PlainNodes(ts[i]);
      }
    }
  }
}
