/** Replaying a diff. */
module DiffReplay {
  import opened Sorting
  import opened Core
  import opened Join
  import opened Store
  import opened Diff
  import opened DiffEffects

  ghost predicate DistinctItems(d: MemoryDiff) {
    && (forall i, j :: 0 <= i < j < |d.nodes| ==> d.nodes[i].Id() != d.nodes[j].Id())
    && (forall i, j :: 0 <= i < j < |d.edges| ==> d.edges[i].Key() != d.edges[j].Key())
  }

  // ---- what a stored node absorbs ----

  ghost predicate Absorbs(stored: MemoryNode, copy: MemoryNode) {
    MergeNode(stored, copy).node == stored
  }

  lemma LaterTimesAbsorbed(stored: MemoryNode, n: MemoryNode, own: bool, now: nat, later: nat)
    requires now <= later && Absorbs(stored, Incoming(n, own, now))
    ensures Absorbs(stored, Incoming(n, own, later))
  {
    hide UnionAnchors, JoinConfidence, MinEmbedding, MinOptBytes;
  }

  lemma RetirementAbsorbs(before: MemoryNode, after: MemoryNode, copy: MemoryNode)
    requires IsRetirement(before, after) && Absorbs(before, copy)
    ensures Absorbs(after, copy)
  {
    hide UnionAnchors, JoinConfidence, MinEmbedding, MinOptBytes;
  }

  /** A first insert absorbs its own copy unless its anchors still have to be put in order. */
  lemma InsertAbsorbs(n: MemoryNode, own: bool, now: nat)
    requires own || n.anchors == []
    ensures Absorbs(Incoming(n, own, now), Incoming(n, own, now)) <==> Canonical(n.anchors)
  {
    SelfMerge(Incoming(n, own, now));
  }

  // ---- replay, node by node ----

  lemma Passed(scheme: SignatureScheme, st: State, d: MemoryDiff, caller: Option<Bytes>, now: nat)
    requires Refusal(scheme, st, d, caller, now).None?
    ensures EdgeRefusal(st, d.nodes, d.edges, caller, now).None? && !NodeRefusal(st, d.nodes, caller, now)
    ensures VerifyNodes(scheme, d.nodes).None? && VerifyEdges(scheme, d.edges).None?
    ensures var p := ApplyAll(Committed(st, d, caller, now), Planned(st, d.nodes, d.edges, caller, now, SupersedeEdge));
      && ApplyDiff(scheme, st, d, caller, now).0 == p.state
      && ApplyDiff(scheme, st, d, caller, now).1 ==
         if p.error.Some? then Err(Supersession(p.error.value))
         else Ok(MergeReport(|d.nodes|, |d.edges|, p.superseded, Unembedded(st, d.nodes, caller, now)))
  {
    hide PlanNode, PlanEdge, ApplyAll, Committed, NodeRefusal, EdgeRefusal;
  }

  lemma Accepted(scheme: SignatureScheme, st: State, d: MemoryDiff, caller: Option<Bytes>, now: nat)
    requires ApplyDiff(scheme, st, d, caller, now).1.Ok?
    ensures Refusal(scheme, st, d, caller, now).None?
    ensures var sup := Planned(st, d.nodes, d.edges, caller, now, SupersedeEdge);
      ApplyAll(Committed(st, d, caller, now), sup).error.None?
  {
    hide PlanNode, PlanEdge, Refusal;
  }

  /** The node of one diff copy once a merge that passed the checks is over. */
  lemma NodeAfterMerge(scheme: SignatureScheme, st: State, d: MemoryDiff, caller: Option<Bytes>, now: nat, i: nat)
    returns (c: MemoryNode)
    requires Keyed(st) && DistinctItems(d) && i < |d.nodes|
    requires Refusal(scheme, st, d, caller, now).None?
    ensures var n := d.nodes[i]; var st' := ApplyDiff(scheme, st, d, caller, now).0;
      && n.Id() in st'.nodes
      && (st'.nodes[n.Id()] == c || (IsRetirement(c, st'.nodes[n.Id()]) && CarriesSupersession(d, n.Id())))
      && match PlanNode(st, n, caller, now)
         case WriteNode(w, _) => c == w
         case SkipNode => n.Id() in st.nodes && c == st.nodes[n.Id()]
         case RefuseNode => false
  {
    hide PlanNode, PlanEdge, ApplyAll, Committed, Refusal, NodeWrites, Planned, PutNodes;
    var n := d.nodes[i];
    Passed(scheme, st, d, caller, now);
    NodesAfter(st, d.nodes, caller, now, n.Id());
    CommittedRows(st, d, caller, now);
    SupersessionsOnly(Committed(st, d, caller, now), Planned(st, d.nodes, d.edges, caller, now, SupersedeEdge));
    SkippedIsStored(st, n, caller, now);
    assert !PlanNode(st, n, caller, now).RefuseNode?;
    assert PlanNode(st, n, caller, now).WriteNode? ==> WritesNode(st, d.nodes, caller, now, i, n.Id());
    c := Committed(st, d, caller, now).nodes[n.Id()];
    var sup := Planned(st, d.nodes, d.edges, caller, now, SupersedeEdge);
    if Targeted(sup, n.Id()) {
      var e :| e in sup && e.to == n.Id();
      PlannedSpec(st, d.nodes, d.edges, caller, now, SupersedeEdge);
      SupersedePlanIsLoadBearing(st, d.nodes, e, caller, now);
    }
  }

  /** The diff carries a load-bearing supersession of the node. */
  ghost predicate CarriesSupersession(d: MemoryDiff, id: ContentHash) {
    exists e :: e in d.edges && e.kind == EdgeKind.Supersedes && !e.quarantined && e.to == id
  }

  ghost predicate NeedsOrdering(st: State, n: MemoryNode) {
    n.Id() !in st.nodes && !Canonical(n.anchors)
  }

  /** Replayed, a copy is a no-op; only a first insert with unordered anchors is rewritten, and
      then it is the caller's own. */
  lemma NodeReplay(scheme: SignatureScheme, st: State, d: MemoryDiff, caller: Option<Bytes>, now: nat, later: nat,
                   i: nat)
    requires Keyed(st) && DistinctItems(d) && i < |d.nodes| && now <= later
    requires Refusal(scheme, st, d, caller, now).None?
    ensures var st' := ApplyDiff(scheme, st, d, caller, now).0;
      && d.nodes[i].Id() in st'.nodes
      && !PlanNode(st', d.nodes[i], caller, later).RefuseNode?
      && (PlanNode(st', d.nodes[i], caller, later).WriteNode? <==> NeedsOrdering(st, d.nodes[i]))
  {
    hide ApplyDiff, Refusal, MergeNode, Incoming, IsRetirement;
    var n := d.nodes[i];
    var own := caller == Some(n.author);
    var st' := ApplyDiff(scheme, st, d, caller, now).0;
    var c := NodeAfterMerge(scheme, st, d, caller, now, i);
    var cur := st'.nodes[n.Id()];
    CopyAbsorbed(st, n, caller, now, c);
    if Absorbs(c, Incoming(n, own, now)) {
      LaterTimesAbsorbed(c, n, own, now, later);
      if cur != c { RetirementAbsorbs(c, cur, Incoming(n, own, later)); }
    } else {
      OwnUnordered(n, cur, c, later);
    }
    ChangedMeansNotAbsorbed(cur, Incoming(n, own, later));
  }

  lemma ChangedMeansNotAbsorbed(stored: MemoryNode, copy: MemoryNode)
    ensures MergeNode(stored, copy).changed <==> !Absorbs(stored, copy)
  {
  }

  /** What the first merge left absorbs the copy it came from, ordering aside. */
  lemma CopyAbsorbed(st: State, n: MemoryNode, caller: Option<Bytes>, now: nat, c: MemoryNode)
    requires match PlanNode(st, n, caller, now)
      case WriteNode(w, _) => c == w
      case SkipNode => n.Id() in st.nodes && c == st.nodes[n.Id()]
      case RefuseNode => false
    ensures var own := caller == Some(n.author);
      && (Absorbs(c, Incoming(n, own, now)) <==> !NeedsOrdering(st, n))
      && (NeedsOrdering(st, n) ==> own && c == n)
  {
    hide MergeNode;
    var own := caller == Some(n.author);
    if n.Id() in st.nodes {
      ChangedMeansNotAbsorbed(st.nodes[n.Id()], Incoming(n, own, now));
      MergedTwice(st.nodes[n.Id()], Incoming(n, own, now));
    } else {
      InsertAbsorbs(n, own, now);
      UnionSpec([], []);
      assert n.anchors == [] ==> Canonical(n.anchors);
    }
  }

  lemma OwnUnordered(n: MemoryNode, cur: MemoryNode, c: MemoryNode, later: nat)
    requires c == n && !Canonical(n.anchors) && (cur == c || IsRetirement(c, cur))
    ensures !Absorbs(cur, Incoming(n, true, later))
  {
    UnionIsJoin(n.anchors, n.anchors, []);
    assert cur.anchors == n.anchors;
    assert MergeNode(cur, n).node.anchors == UnionAnchors(n.anchors, n.anchors);
  }

  // ---- replay, edge by edge ----

  lemma SameKeySameEdge(d: MemoryDiff, a: Edge, b: Edge)
    requires DistinctItems(d) && a in d.edges && b in d.edges && a.Key() == b.Key()
    ensures a == b
  {
  }

  /** The first `f` planned supersessions are what the merge got done. */
  ghost predicate Did(scheme: SignatureScheme, st: State, d: MemoryDiff, caller: Option<Bytes>, now: nat,
                      sup: seq<Edge>, f: nat) {
    && sup == Planned(st, d.nodes, d.edges, caller, now, SupersedeEdge) && f <= |sup|
    && ApplyAll(Committed(st, d, caller, now), sup[..f]).error.None?
    && ApplyAll(Committed(st, d, caller, now), sup[..f]).state == ApplyDiff(scheme, st, d, caller, now).0
  }

  /** What is stored under an edge's key once the merge is over. */
  lemma EdgeAfterMerge(scheme: SignatureScheme, st: State, d: MemoryDiff, caller: Option<Bytes>, now: nat,
                       sup: seq<Edge>, f: nat, e: Edge)
    requires Keyed(st) && DistinctItems(d) && e in d.edges && Refusal(scheme, st, d, caller, now).None?
    requires Did(scheme, st, d, caller, now, sup, f)
    ensures var st', k := ApplyDiff(scheme, st, d, caller, now).0, e.Key();
      match PlanEdge(st, d.nodes, e, caller, now)
      case RefuseEdge(_) => false
      case PlainEdge => (k in st'.edges && st'.edges[k] == e) || Demotes(st.edges, e)
      case SkipEdge => k in st.edges ==> k in st'.edges && st'.edges[k] == st.edges[k]
      case SupersedeEdge =>
        if e in sup[..f] then k in st'.edges && st'.edges[k] == e
        else (k in st'.edges <==> k in st.edges) && (k in st.edges ==> st'.edges[k] == st.edges[k])
  {
    hide ApplyDiff, ApplyAll, PlanEdge, DistinctItems, EdgeRefusal, Committed, Refusal, Planned, PutEdges,
      NodeRefusal, OnlyRetires;
    var st', k := ApplyDiff(scheme, st, d, caller, now).0, e.Key();
    var plain := Planned(st, d.nodes, d.edges, caller, now, PlainEdge);
    var c := Committed(st, d, caller, now);
    Passed(scheme, st, d, caller, now);
    NoRefusal(st, d.nodes, d.edges, caller, now);
    CommittedRows(st, d, caller, now);
    PlannedSpec(st, d.nodes, d.edges, caller, now, PlainEdge);
    PlannedSpec(st, d.nodes, d.edges, caller, now, SupersedeEdge);
    EdgesAfter(st.edges, plain, k);
    SupersessionsOnly(c, sup[..f]);
    assert forall x :: x in sup[..f] ==> x in sup;
    if k in c.edges && c.edges[k] in d.edges && c.edges[k].Key() == k { SameKeySameEdge(d, c.edges[k], e); }
    if k in st'.edges && st'.edges[k] in d.edges && st'.edges[k].Key() == k { SameKeySameEdge(d, st'.edges[k], e); }
    assert e in plain <==> PlanEdge(st, d.nodes, e, caller, now) == PlainEdge;
    assert e in sup <==> PlanEdge(st, d.nodes, e, caller, now) == SupersedeEdge;
  }

  /** Replayed, an edge is a no-op, unless it is a supersession the first merge did not get to:
      that is tried again. */
  lemma EdgeReplay(scheme: SignatureScheme, st: State, d: MemoryDiff, caller: Option<Bytes>, now: nat, later: nat,
                   sup: seq<Edge>, f: nat, e: Edge)
    requires Keyed(st) && DistinctItems(d) && e in d.edges && Refusal(scheme, st, d, caller, now).None?
    requires Did(scheme, st, d, caller, now, sup, f)
    ensures PlanEdge(ApplyDiff(scheme, st, d, caller, now).0, d.nodes, e, caller, later) ==
      if e in sup && e !in sup[..f] then SupersedeEdge else SkipEdge
  {
    hide ApplyDiff, DistinctItems, Refusal, Committed, ApplyAll, Planned;
    EdgeAfterMerge(scheme, st, d, caller, now, sup, f, e);
    PlannedSpec(st, d.nodes, d.edges, caller, now, SupersedeEdge);
    assert e in sup[..f] ==> e in sup;
    if e in sup {
      SupersedePlanIsLoadBearing(st, d.nodes, e, caller, now);
      SameTargetAuthor(scheme, st, d, caller, now, e.to);
    }
  }

  lemma SameTargetAuthor(scheme: SignatureScheme, st: State, d: MemoryDiff, caller: Option<Bytes>, now: nat,
                         to: ContentHash)
    requires Keyed(st) && Refusal(scheme, st, d, caller, now).None?
    ensures TargetAuthor(ApplyDiff(scheme, st, d, caller, now).0, d.nodes, to) == TargetAuthor(st, d.nodes, to)
  {
    hide ApplyDiff, Refusal, Committed, ApplyAll, Planned, PlanNode, NodeWrites, PutNodes;
    Passed(scheme, st, d, caller, now);
    OnlyAuthorsChange(scheme, st, d, caller, now);
    CommittedRows(st, d, caller, now);
    NodesAfter(st, d.nodes, caller, now, to);
    FirstWithIdAuthor(d.nodes, to);
    SupersessionsOnly(Committed(st, d, caller, now), Planned(st, d.nodes, d.edges, caller, now, SupersedeEdge));
  }

  // ---- replay of the whole diff ----

  lemma {:induction false} AllEdgesSkipped(st: State, ns: seq<MemoryNode>, es: seq<Edge>, caller: Option<Bytes>,
                                           now: nat)
    requires forall e :: e in es ==> PlanEdge(st, ns, e, caller, now) == SkipEdge
    ensures EdgeRefusal(st, ns, es, caller, now).None?
    ensures Planned(st, ns, es, caller, now, PlainEdge) == [] == Planned(st, ns, es, caller, now, SupersedeEdge)
  {
    hide PlanEdge;
    if es != [] { AllEdgesSkipped(st, ns, es[..|es| - 1], caller, now); }
  }

  lemma {:induction false} StoredNodesQuiet(st: State, ns: seq<MemoryNode>, caller: Option<Bytes>, now: nat)
    requires forall i :: 0 <= i < |ns| ==> ns[i].Id() in st.nodes && !PlanNode(st, ns[i], caller, now).RefuseNode?
    ensures !NodeRefusal(st, ns, caller, now) && Unembedded(st, ns, caller, now) == 0
    ensures (forall i :: 0 <= i < |ns| ==> PlanNode(st, ns[i], caller, now).SkipNode?) ==>
      NodeWrites(st, ns, caller, now) == []
  {
    hide MergeNode, Incoming;
    if ns != [] {
      assert forall i :: 0 <= i < |ns| - 1 ==> ns[..|ns| - 1][i] == ns[i];
      StoredNodesQuiet(st, ns[..|ns| - 1], caller, now);
    }
  }

  /** Replaying an accepted diff, by the same caller at any later clock, is accepted again and
      retires and drops nothing. It changes nothing at all exactly when every node the first
      merge inserted came with canonical anchors. */
  lemma Replay(scheme: SignatureScheme, st: State, d: MemoryDiff, caller: Option<Bytes>, now: nat, later: nat)
    requires Keyed(st) && DistinctItems(d) && now <= later
    requires ApplyDiff(scheme, st, d, caller, now).1.Ok?
    ensures var st' := ApplyDiff(scheme, st, d, caller, now).0;
      var (again, r) := ApplyDiff(scheme, st', d, caller, later);
      && r == Ok(MergeReport(|d.nodes|, |d.edges|, 0, 0))
      && again.edges == st'.edges && again.inserters == st'.inserters
      && (again == st' <==> forall i :: 0 <= i < |d.nodes| ==> !NeedsOrdering(st, d.nodes[i]))
  {
    hide ApplyDiff, PlanNode, PlanEdge, NeedsOrdering, Refusal, ApplyAll, Committed, Planned, NodeWrites, PutNodes;
    hide NodeRefusal, EdgeRefusal, DistinctItems, Unembedded;
    var st' := ApplyDiff(scheme, st, d, caller, now).0;
    OnlyAuthorsChange(scheme, st, d, caller, now);
    Accepted(scheme, st, d, caller, now);
    Passed(scheme, st, d, caller, now);
    var sup := Planned(st, d.nodes, d.edges, caller, now, SupersedeEdge);
    assert sup[..|sup|] == sup;
    forall e | e in d.edges ensures PlanEdge(st', d.nodes, e, caller, later) == SkipEdge {
      EdgeReplay(scheme, st, d, caller, now, later, sup, |sup|, e);
    }
    AllEdgesSkipped(st', d.nodes, d.edges, caller, later);
    NodesReplay(scheme, st, d, caller, now, later);
    QuietCommit(scheme, st', d, caller, later, []);
    var c' := st'.(nodes := PutNodes(st'.nodes, NodeWrites(st', d.nodes, caller, later)));
    NoSupersessions(c', []);
  }

  lemma NoWritesChangeNothing(m: map<ContentHash, MemoryNode>)
    ensures PutNodes(m, []) == m
  {
  }

  /** With ids distinct, a planned write of a stored node shows. */
  lemma OneCopyRewritten(st: State, d: MemoryDiff, caller: Option<Bytes>, now: nat, i: nat)
    requires Keyed(st) && DistinctItems(d) && i < |d.nodes|
    requires d.nodes[i].Id() in st.nodes && PlanNode(st, d.nodes[i], caller, now).WriteNode?
    ensures PutNodes(st.nodes, NodeWrites(st, d.nodes, caller, now)) != st.nodes
  {
    hide PlanNode, NodeWrites, PutNodes;
    var id := d.nodes[i].Id();
    NodesAfter(st, d.nodes, caller, now, id);
    assert WritesNode(st, d.nodes, caller, now, i, id);
    WritesDiffer(st, d.nodes[i], caller, now);
  }

  // ---- replay of a diff whose supersession was rejected ----

  /** Where the supersessions stopped. */
  lemma {:induction false} StoppedAt(st: State, es: seq<Edge>) returns (f: nat)
    requires ApplyAll(st, es).error.Some?
    ensures f < |es|
    ensures var p := ApplyAll(st, es[..f]);
      && p.error.None? && p.state == ApplyAll(st, es).state
      && ApplySupersession(p.state, es[f]) == Rejected(ApplyAll(st, es).error.value)
  {
    hide ApplySupersession;
    var init := es[..|es| - 1];
    if ApplyAll(st, init).error.Some? {
      f := StoppedAt(st, init);
      assert init[..f] == es[..f];
    } else {
      f := |es| - 1;
    }
  }

  ghost predicate NoRepeats(es: seq<Edge>) {
    forall i, j :: 0 <= i < j < |es| ==> es[i] != es[j]
  }

  lemma PlaceOf(sup: seq<Edge>, before: seq<Edge>, x: Edge, f: nat)
    requires NoRepeats(sup) && before + [x] <= sup && f <= |sup|
    ensures x in sup[..f] <==> |before| < f
    ensures |before| >= f ==> (before + [x])[f..] == before[f..] + [x]
  {
    assert sup[|before|] == (before + [x])[|before|] == x;
  }

  /** Filtering out the first `f` of a filtered list leaves the rest. */
  lemma {:induction false} PlannedTail(st: State, st': State, ns: seq<MemoryNode>, es: seq<Edge>,
                                       caller: Option<Bytes>, now: nat, later: nat,
                                       sup: seq<Edge>, f: nat)
    requires NoRepeats(es)
    requires Planned(st, ns, es, caller, now, SupersedeEdge) <= sup && f <= |sup|
    requires NoRepeats(sup)
    requires forall e :: e in es ==>
      PlanEdge(st', ns, e, caller, later) ==
      if PlanEdge(st, ns, e, caller, now) == SupersedeEdge && e !in sup[..f] then SupersedeEdge else SkipEdge
    ensures EdgeRefusal(st', ns, es, caller, later).None? && Planned(st', ns, es, caller, later, PlainEdge) == []
    ensures var all := Planned(st, ns, es, caller, now, SupersedeEdge);
      Planned(st', ns, es, caller, later, SupersedeEdge) == if |all| <= f then [] else all[f..]
  {
    hide PlanEdge;
    if es != [] {
      var init, x := es[..|es| - 1], es[|es| - 1];
      var before := Planned(st, ns, init, caller, now, SupersedeEdge);
      assert x in es && forall e :: e in init ==> e in es;
      PlannedTail(st, st', ns, init, caller, now, later, sup, f);
      if PlanEdge(st, ns, x, caller, now) == SupersedeEdge {
        assert Planned(st, ns, es, caller, now, SupersedeEdge) == before + [x];
        PlaceOf(sup, before, x, f);
      }
    }
  }

  lemma {:induction false} PlannedDistinct(st: State, ns: seq<MemoryNode>, es: seq<Edge>, caller: Option<Bytes>,
                                           now: nat, plan: EdgePlan)
    requires NoRepeats(es)
    ensures NoRepeats(Planned(st, ns, es, caller, now, plan))
  {
    hide PlanEdge;
    if es != [] {
      var init, x := es[..|es| - 1], es[|es| - 1];
      PlannedDistinct(st, ns, init, caller, now, plan);
      PlannedSpec(st, ns, init, caller, now, plan);
      var p := Planned(st, ns, init, caller, now, plan);
      forall i | 0 <= i < |p| ensures p[i] != x { assert p[i] in p && p[i] in init; }
      var all := Planned(st, ns, es, caller, now, plan);
      assert all == p || all == p + [x];
    }
  }

  lemma {:induction false} FirstFails(st: State, es: seq<Edge>, error: SupersessionError)
    requires es != [] && ApplySupersession(st, es[0]) == Rejected(error)
    ensures ApplyAll(st, es) == Progress(st, 0, Some(error))
  {
    hide ApplySupersession;
    assert ApplyAll(st, es[..0]) == Progress(st, 0, None) && es[..1][..0] == es[..0];
    FailureStays(st, es, 1);
  }

  /** A rejection depends on the edges and on which nodes are stored, not on their state. */
  lemma SameRejection(st: State, st': State, e: Edge, error: SupersessionError)
    requires Keyed(st) && Keyed(st') && st'.edges == st.edges && st'.nodes.Keys == st.nodes.Keys
    requires ApplySupersession(st, e) == Rejected(error)
    ensures ApplySupersession(st', e) == Rejected(error)
  {
    hide Reaches;
  }

  /** A diff whose supersession was rejected can be merged again safely: the bad edge is rejected for
      the same reason and everything that landed is a no-op, but for anchors that still have to be
      put in order. */
  lemma RejectedReplay(scheme: SignatureScheme, st: State, d: MemoryDiff, caller: Option<Bytes>, now: nat, later: nat)
    requires Keyed(st) && DistinctItems(d) && now <= later
    requires Refusal(scheme, st, d, caller, now).None? && ApplyDiff(scheme, st, d, caller, now).1.Err?
    ensures var (st', r) := ApplyDiff(scheme, st, d, caller, now);
      var (again, r') := ApplyDiff(scheme, st', d, caller, later);
      && r.error.Supersession? && r' == r
      && again.edges == st'.edges && again.inserters == st'.inserters
      && (again == st' <==> forall i :: 0 <= i < |d.nodes| ==> !NeedsOrdering(st, d.nodes[i]))
  {
    hide ApplyDiff, Refusal, PlanNode, PlanEdge, ApplyAll, Committed, Planned, NeedsOrdering, ApplySupersession;
    hide NodeWrites, PutNodes, NodeRefusal, EdgeRefusal;
    var (st', r) := ApplyDiff(scheme, st, d, caller, now);
    OnlyAuthorsChange(scheme, st, d, caller, now);
    Passed(scheme, st, d, caller, now);
    var c, sup := Committed(st, d, caller, now), Planned(st, d.nodes, d.edges, caller, now, SupersedeEdge);
    var f := StoppedAt(c, sup);
    assert NoRepeats(d.edges);
    PlannedDistinct(st, d.nodes, d.edges, caller, now, SupersedeEdge);
    PlannedSpec(st, d.nodes, d.edges, caller, now, SupersedeEdge);
    forall e | e in d.edges
      ensures PlanEdge(st', d.nodes, e, caller, later) ==
        if PlanEdge(st, d.nodes, e, caller, now) == SupersedeEdge && e !in sup[..f] then SupersedeEdge else SkipEdge
    {
      EdgeReplay(scheme, st, d, caller, now, later, sup, f, e);
    }
    PlannedTail(st, st', d.nodes, d.edges, caller, now, later, sup, f);
    NodesReplay(scheme, st, d, caller, now, later);
    var c' := st'.(nodes := PutNodes(st'.nodes, NodeWrites(st', d.nodes, caller, later)));
    StoredStay(st', d, caller, later);
    SameRejection(st', c', sup[f], r.error.error);
    FirstFails(c', sup[f..], r.error.error);
    QuietCommit(scheme, st', d, caller, later, sup[f..]);
  }

  /** The node half of a replay: nothing is refused, and something is written exactly if an inserted
      node still needs its anchors ordered. */
  lemma NodesReplay(scheme: SignatureScheme, st: State, d: MemoryDiff, caller: Option<Bytes>, now: nat, later: nat)
    requires Keyed(st) && DistinctItems(d) && now <= later && Refusal(scheme, st, d, caller, now).None?
    ensures var st' := ApplyDiff(scheme, st, d, caller, now).0;
      && (forall i :: 0 <= i < |d.nodes| ==> d.nodes[i].Id() in st'.nodes)
      && !NodeRefusal(st', d.nodes, caller, later) && Unembedded(st', d.nodes, caller, later) == 0
      && (PutNodes(st'.nodes, NodeWrites(st', d.nodes, caller, later)) == st'.nodes <==>
            forall i :: 0 <= i < |d.nodes| ==> !NeedsOrdering(st, d.nodes[i]))
  {
    hide ApplyDiff, Refusal, PlanNode, NeedsOrdering, NodeWrites, PutNodes, NodeRefusal, Unembedded, DistinctItems;
    var st' := ApplyDiff(scheme, st, d, caller, now).0;
    OnlyAuthorsChange(scheme, st, d, caller, now);
    forall i | 0 <= i < |d.nodes|
      ensures d.nodes[i].Id() in st'.nodes && !PlanNode(st', d.nodes[i], caller, later).RefuseNode?
      ensures PlanNode(st', d.nodes[i], caller, later).WriteNode? <==> NeedsOrdering(st, d.nodes[i])
    {
      NodeReplay(scheme, st, d, caller, now, later, i);
    }
    StoredNodesQuiet(st', d.nodes, caller, later);
    if i :| 0 <= i < |d.nodes| && NeedsOrdering(st, d.nodes[i]) {
      OneCopyRewritten(st', d, caller, later, i);
    } else {
      NoWritesChangeNothing(st'.nodes);
    }
  }

  /** Writing only stored nodes keeps the ids. */
  lemma StoredStay(st: State, d: MemoryDiff, caller: Option<Bytes>, now: nat)
    requires Keyed(st) && forall i :: 0 <= i < |d.nodes| ==> d.nodes[i].Id() in st.nodes
    ensures var st' := st.(nodes := PutNodes(st.nodes, NodeWrites(st, d.nodes, caller, now)));
      Keyed(st') && st'.nodes.Keys == st.nodes.Keys
  {
    hide PlanNode, NodeWrites, PutNodes;
    var m := PutNodes(st.nodes, NodeWrites(st, d.nodes, caller, now));
    forall id | id in st.nodes || id in m ensures id in st.nodes && id in m && m[id].Id() == id {
      NodesAfter(st, d.nodes, caller, now, id);
      forall i | WritesNode(st, d.nodes, caller, now, i, id)
        ensures PlanNode(st, d.nodes[i], caller, now).node.Id() == id
      {
        WriteKeepsId(st, d.nodes[i], caller, now);
      }
    }
  }

  /** A diff that has only node writes and supersessions left to do. */
  lemma QuietCommit(scheme: SignatureScheme, st: State, d: MemoryDiff, caller: Option<Bytes>, now: nat, sup: seq<Edge>)
    requires VerifyNodes(scheme, d.nodes).None? && VerifyEdges(scheme, d.edges).None?
    requires !NodeRefusal(st, d.nodes, caller, now) && EdgeRefusal(st, d.nodes, d.edges, caller, now).None?
    requires Planned(st, d.nodes, d.edges, caller, now, PlainEdge) == []
    requires sup == Planned(st, d.nodes, d.edges, caller, now, SupersedeEdge)
    ensures var c := st.(nodes := PutNodes(st.nodes, NodeWrites(st, d.nodes, caller, now)));
      var p := ApplyAll(c, sup);
      ApplyDiff(scheme, st, d, caller, now) ==
      (p.state,
       if p.error.Some? then Err(Supersession(p.error.value))
       else Ok(MergeReport(|d.nodes|, |d.edges|, p.superseded, Unembedded(st, d.nodes, caller, now))))
  {
    hide NodeWrites, PlanNode, PlanEdge, NodeRefusal, EdgeRefusal, VerifyNodes, VerifyEdges, Planned, ApplyAll,
      Unembedded, PutNodes;
  }

  lemma WritesDiffer(st: State, n: MemoryNode, caller: Option<Bytes>, now: nat)
    requires n.Id() in st.nodes && PlanNode(st, n, caller, now).WriteNode?
    ensures PlanNode(st, n, caller, now).node != st.nodes[n.Id()]
  {
  }
}
