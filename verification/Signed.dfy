/** What it takes to get into the store: over merges and whole runs, every Asserted row carries a
    signature that verifies under its author's key, on the plane and at a tier an agent may use. */
module Signed {
  import opened Sorting
  import opened Core
  import opened Join
  import opened Store
  import opened Diff
  import opened DiffEffects
  import opened DiffRuns

  /** Asserted, at one of the two tiers an agent may claim. */
  ghost predicate AgentTier(plane: Plane, tier: TrustTier) {
    plane == Asserted && (tier == AgentAsserted || tier == InferredAdvisory)
  }

  ghost predicate ProperNode(scheme: SignatureScheme, n: MemoryNode) {
    && AgentTier(n.plane, n.trustTier) && n.signature.Some?
    && scheme(n.author, NodeMessage(n.Id()), n.signature.value).None?
  }

  ghost predicate ProperEdge(scheme: SignatureScheme, e: Edge) {
    && AgentTier(e.plane, e.trustTier) && e.signature.Some?
    && scheme(e.provenance.asserter, EdgeMessage(e.Key()), e.signature.value).None?
  }

  // ---- the check ----

  /** The error for an item that is not proper. */
  function ItemError(plane: Plane, tier: TrustTier, sig: Option<Bytes>,
                     verdict: Option<AssertError>): Option<AssertError> {
    if plane != Asserted || (tier != AgentAsserted && tier != InferredAdvisory) then Some(NotAssertable)
    else if sig.None? then Some(Unsigned)
    else verdict
  }

  ghost function NodeError(scheme: SignatureScheme, n: MemoryNode): Option<AssertError> {
    ItemError(n.plane, n.trustTier, n.signature,
              if n.signature.Some? then scheme(n.author, NodeMessage(n.Id()), n.signature.value) else None)
  }

  ghost function EdgeError(scheme: SignatureScheme, e: Edge): Option<AssertError> {
    ItemError(e.plane, e.trustTier, e.signature,
              if e.signature.None? then None
              else scheme(e.provenance.asserter, EdgeMessage(e.Key()), e.signature.value))
  }

  lemma ErrorsMean(scheme: SignatureScheme, n: MemoryNode, e: Edge)
    ensures NodeError(scheme, n).None? <==> ProperNode(scheme, n)
    ensures EdgeError(scheme, e).None? <==> ProperEdge(scheme, e)
    ensures VerifyNode(scheme, n) == NodeError(scheme, n) && VerifyEdge(scheme, e) == EdgeError(scheme, e)
  {
  }

  /** The verdict on a list is that on its first improper member. */
  lemma {:induction false} FirstBadNode(scheme: SignatureScheme, ns: seq<MemoryNode>, i: nat)
    requires i < |ns| && NodeError(scheme, ns[i]).Some? && forall j :: 0 <= j < i ==> NodeError(scheme, ns[j]).None?
    ensures VerifyNodes(scheme, ns) == NodeError(scheme, ns[i])
  {
    hide VerifyNode, NodeError, ProperNode, ProperEdge, EdgeError, VerifyEdge;
    var e: Edge :| true;
    ErrorsMean(scheme, ns[|ns| - 1], e);
    var init := ns[..|ns| - 1];
    if i < |ns| - 1 {
      FirstBadNode(scheme, init, i);
    } else {
      GoodNodes(scheme, init);
    }
  }

  lemma {:induction false} GoodNodes(scheme: SignatureScheme, ns: seq<MemoryNode>)
    ensures VerifyNodes(scheme, ns).None? <==> forall j :: 0 <= j < |ns| ==> NodeError(scheme, ns[j]).None?
  {
    hide VerifyNode, NodeError, ProperNode, ProperEdge, EdgeError, VerifyEdge;
    if ns != [] {
      var e: Edge :| true;
      ErrorsMean(scheme, ns[|ns| - 1], e);
      GoodNodes(scheme, ns[..|ns| - 1]);
    }
  }

  lemma {:induction false} FirstBadEdge(scheme: SignatureScheme, es: seq<Edge>, i: nat)
    requires i < |es| && EdgeError(scheme, es[i]).Some? && forall j :: 0 <= j < i ==> EdgeError(scheme, es[j]).None?
    ensures VerifyEdges(scheme, es) == EdgeError(scheme, es[i])
  {
    hide VerifyNode, NodeError, ProperNode, ProperEdge, EdgeError, VerifyEdge;
    var n: MemoryNode :| true;
    ErrorsMean(scheme, n, es[|es| - 1]);
    var init := es[..|es| - 1];
    if i < |es| - 1 {
      FirstBadEdge(scheme, init, i);
    } else {
      GoodEdges(scheme, init);
    }
  }

  lemma {:induction false} GoodEdges(scheme: SignatureScheme, es: seq<Edge>)
    ensures VerifyEdges(scheme, es).None? <==> forall j :: 0 <= j < |es| ==> EdgeError(scheme, es[j]).None?
  {
    hide VerifyNode, NodeError, ProperNode, ProperEdge, EdgeError, VerifyEdge;
    if es != [] {
      var n: MemoryNode :| true;
      ErrorsMean(scheme, n, es[|es| - 1]);
      GoodEdges(scheme, es[..|es| - 1]);
    }
  }

  /** A diff with an improper item is refused whole, with the error of its first one, nodes before
      edges, and leaves the store as it was. */
  lemma ImproperIsRefused(scheme: SignatureScheme, st: State, d: MemoryDiff, caller: Option<Bytes>, now: nat, i: nat)
    ensures (&& i < |d.nodes| && NodeError(scheme, d.nodes[i]).Some?
             && (forall j :: 0 <= j < i ==> NodeError(scheme, d.nodes[j]).None?)) ==>
      ApplyDiff(scheme, st, d, caller, now) == (st, Err(NodeError(scheme, d.nodes[i]).value))
    ensures (&& (forall j :: 0 <= j < |d.nodes| ==> NodeError(scheme, d.nodes[j]).None?)
             && i < |d.edges| && EdgeError(scheme, d.edges[i]).Some?
             && (forall j :: 0 <= j < i ==> EdgeError(scheme, d.edges[j]).None?)) ==>
      ApplyDiff(scheme, st, d, caller, now) == (st, Err(EdgeError(scheme, d.edges[i]).value))
  {
    hide NodeError, EdgeError, VerifyNodes, VerifyEdges, NodeRefusal, EdgeRefusal, ApplyAll, Committed;
    if i < |d.nodes| && NodeError(scheme, d.nodes[i]).Some?
       && forall j :: 0 <= j < i ==> NodeError(scheme, d.nodes[j]).None? {
      FirstBadNode(scheme, d.nodes, i);
    }
    if i < |d.edges| && EdgeError(scheme, d.edges[i]).Some?
       && forall j :: 0 <= j < i ==> EdgeError(scheme, d.edges[j]).None? {
      FirstBadEdge(scheme, d.edges, i);
    }
    GoodNodes(scheme, d.nodes);
  }

  // ---- what gets in ----

  /** Every edge row a merge stores or changes is proper. */
  lemma StoredEdgesAreProper(scheme: SignatureScheme, st: State, d: MemoryDiff, caller: Option<Bytes>, now: nat,
                             k: EdgeKey)
    requires Keyed(st)
    ensures var st' := ApplyDiff(scheme, st, d, caller, now).0;
      !SameEdgeRow(st, st', k) ==> k in st'.edges && ProperEdge(scheme, st'.edges[k])
  {
    hide PlanEdge, PlanNode, ApplyAll, Committed, Planned, PutEdges, VerifyNodes, VerifyEdges, NodeRefusal, EdgeRefusal;
    hide ProperEdge, EdgeError, NodeError, ProperNode, VerifyEdge, VerifyNode;
    var st' := ApplyDiff(scheme, st, d, caller, now).0;
    if !SameEdgeRow(st, st', k) {
      EdgesChangeByAsserter(st, d, caller, now, k);
      var e := st'.edges[k];
      RowFromDiff(st, d, caller, now, k);
      GoodEdges(scheme, d.edges);
      var j :| 0 <= j < |d.edges| && d.edges[j] == e;
      var n: MemoryNode :| true;
      ErrorsMean(scheme, n, e);
    }
  }

  /** A changed edge row holds an edge of the diff. */
  lemma RowFromDiff(st: State, d: MemoryDiff, caller: Option<Bytes>, now: nat, k: EdgeKey)
    requires Keyed(st) && !SameEdgeRow(st, Written(st, d, caller, now), k)
    ensures k in Written(st, d, caller, now).edges && Written(st, d, caller, now).edges[k] in d.edges
  {
    hide PlanEdge, Committed, ApplyAll, Planned, PutEdges;
    var plain := Planned(st, d.nodes, d.edges, caller, now, PlainEdge);
    var sup := Planned(st, d.nodes, d.edges, caller, now, SupersedeEdge);
    EdgesChangeByAsserter(st, d, caller, now, k);
    CommittedRows(st, d, caller, now);
    PlannedSpec(st, d.nodes, d.edges, caller, now, PlainEdge);
    PlannedSpec(st, d.nodes, d.edges, caller, now, SupersedeEdge);
    EdgesAfter(st.edges, plain, k);
    SupersessionsOnly(Committed(st, d, caller, now), sup);
  }

  /** Every Asserted row is proper. */
  ghost predicate AllProper(scheme: SignatureScheme, st: State) {
    && (forall id :: id in st.nodes && st.nodes[id].plane == Asserted ==> ProperNode(scheme, st.nodes[id]))
    && (forall k :: k in st.edges && st.edges[k].plane == Asserted ==> ProperEdge(scheme, st.edges[k]))
  }

  /** A node row that a merge of proper items writes is proper: a new one always, a joined one if
      what it was joined to is. */
  lemma WrittenNodeIsProper(scheme: SignatureScheme, st: State, n: MemoryNode, caller: Option<Bytes>, now: nat)
    requires Keyed(st) && ProperNode(scheme, n) && PlanNode(st, n, caller, now).WriteNode?
    requires n.Id() in st.nodes ==> ProperNode(scheme, st.nodes[n.Id()])
    ensures ProperNode(scheme, PlanNode(st, n, caller, now).node)
  {
    hide UnionAnchors, JoinConfidence, MinEmbedding;
    WriteKeepsId(st, n, caller, now);
  }

  lemma StoredNodesAreProper(scheme: SignatureScheme, st: State, d: MemoryDiff, caller: Option<Bytes>, now: nat,
                             id: ContentHash)
    requires Keyed(st) && (id in st.nodes && st.nodes[id].plane == Asserted ==> ProperNode(scheme, st.nodes[id]))
    ensures var st' := ApplyDiff(scheme, st, d, caller, now).0;
      id in st'.nodes && !(id in st.nodes && st'.nodes[id] == st.nodes[id]) ==> ProperNode(scheme, st'.nodes[id])
  {
    hide PlanEdge, PlanNode, ApplyAll, Committed, Planned, PutNodes, NodeWrites, Refusal, ProperNode, NodeError;
    hide ApplyDiff, ProperEdge, EdgeError, VerifyEdge, VerifyNode, VerifyNodes;
    PassedIsWritten(scheme, st, d, caller, now);
    if Refusal(scheme, st, d, caller, now).None? {
      var c, sup := Committed(st, d, caller, now), Planned(st, d.nodes, d.edges, caller, now, SupersedeEdge);
      var st' := Written(st, d, caller, now);
      PassedVerify(scheme, st, d, caller, now);
      CommittedRows(st, d, caller, now);
      NodesAfter(st, d.nodes, caller, now, id);
      SupersessionsOnly(c, sup);
      if i :| WritesNode(st, d.nodes, caller, now, i, id) && c.nodes[id] == PlanNode(st, d.nodes[i], caller, now).node {
        WrittenProper(scheme, st, d.nodes, caller, now, i);
      }
      if id in st'.nodes && st'.nodes[id] != c.nodes[id] {
        RetiredIsAsserted(scheme, st, d, caller, now, id);
        SameSignature(scheme, c.nodes[id], st'.nodes[id]);
      }
    }
  }

  lemma PassedVerify(scheme: SignatureScheme, st: State, d: MemoryDiff, caller: Option<Bytes>, now: nat)
    requires Refusal(scheme, st, d, caller, now).None?
    ensures VerifyNodes(scheme, d.nodes).None? && VerifyEdges(scheme, d.edges).None?
  {
    hide VerifyNodes, VerifyEdges, NodeRefusal, EdgeRefusal;
  }

  lemma WrittenProper(scheme: SignatureScheme, st: State, ns: seq<MemoryNode>, caller: Option<Bytes>, now: nat, i: nat)
    requires Keyed(st) && i < |ns| && VerifyNodes(scheme, ns).None? && PlanNode(st, ns[i], caller, now).WriteNode?
    requires ns[i].Id() in st.nodes && st.nodes[ns[i].Id()].plane == Asserted ==>
      ProperNode(scheme, st.nodes[ns[i].Id()])
    ensures ProperNode(scheme, PlanNode(st, ns[i], caller, now).node)
  {
    hide PlanNode, VerifyNodes, NodeError, EdgeError, ProperEdge, VerifyEdge, VerifyNode;
    GoodNodes(scheme, ns);
    var e: Edge :| true;
    ErrorsMean(scheme, ns[i], e);
    WrittenNodeIsProper(scheme, st, ns[i], caller, now);
  }

  lemma SameSignature(scheme: SignatureScheme, a: MemoryNode, b: MemoryNode)
    requires IsRetirement(a, b) && ProperNode(scheme, a)
    ensures ProperNode(scheme, b)
  {
  }

  /** Only Asserted nodes are retired by a diff. */
  lemma RetiredIsAsserted(scheme: SignatureScheme, st: State, d: MemoryDiff, caller: Option<Bytes>, now: nat,
                          id: ContentHash)
    requires Keyed(st) && Refusal(scheme, st, d, caller, now).None?
    requires var c := Committed(st, d, caller, now); var st' := Written(st, d, caller, now);
      id in c.nodes && id in st'.nodes && st'.nodes[id] != c.nodes[id]
    ensures Committed(st, d, caller, now).nodes[id].plane == Asserted
  {
    hide PlanEdge, ApplyAll, Committed, Planned, Refusal, ApplySupersession, EdgeError, ProperEdge, VerifyEdges;
    hide ProperNode, NodeError, VerifyNode, VerifyEdge;
    var c, sup := Committed(st, d, caller, now), Planned(st, d.nodes, d.edges, caller, now, SupersedeEdge);
    PassedVerify(scheme, st, d, caller, now);
    PlannedSpec(st, d.nodes, d.edges, caller, now, SupersedeEdge);
    GoodEdges(scheme, d.edges);
    forall e | e in sup ensures e.plane == Asserted {
      var j :| 0 <= j < |d.edges| && d.edges[j] == e;
      var n: MemoryNode :| true;
      ErrorsMean(scheme, n, e);
      EdgePlane(scheme, e);
    }
    OnlyAssertedRetire(c, sup, id);
  }

  lemma EdgePlane(scheme: SignatureScheme, e: Edge)
    requires EdgeError(scheme, e).None?
    ensures e.plane == Asserted
  {
  }

  lemma {:induction false} OnlyAssertedRetire(st: State, es: seq<Edge>, id: ContentHash)
    requires forall e :: e in es ==> e.plane == Asserted
    requires id in st.nodes
    ensures id in ApplyAll(st, es).state.nodes
    ensures ApplyAll(st, es).state.nodes[id] != st.nodes[id] ==> st.nodes[id].plane == Asserted
    ensures ApplyAll(st, es).state.nodes[id].plane == st.nodes[id].plane
  {
    hide ApplySupersession;
    if es != [] {
      var init, x := es[..|es| - 1], es[|es| - 1];
      OnlyAssertedRetire(st, init, id);
      SupersessionShape(ApplyAll(st, init).state, x);
      PlaneGuard(ApplyAll(st, init).state, x);
      assert x in es;
    }
  }

  lemma PlaneGuard(st: State, e: Edge)
    ensures e.plane == Asserted && ApplySupersession(st, e).Applied? ==>
      e.to in st.nodes && st.nodes[e.to].plane == Asserted
  {
    hide Reaches;
  }

  // ---- runs ----

  lemma ConfirmationKeepsProper(scheme: SignatureScheme, st: State, key: EdgeKey, now: nat)
    requires Keyed(st) && AllProper(scheme, st)
    ensures AllProper(scheme, ConfirmEdge(st, key, now).0)
  {
    hide ApplySupersession, LoadBearing, Acyclic, PutEdges;
    if key in st.edges && st.edges[key].quarantined {
      var edge := st.edges[key].(quarantined := false);
      if edge.kind == Supersedes {
        SupersessionShape(st, edge.(provenance := edge.provenance.(at := now)));
      } else {
        OtherKindKeepsLoadBearing(st.edges, key, edge);
      }
    }
  }

  /** In every run of merges and confirmations, from a store whose Asserted rows are proper, they
      stay so: nothing unsigned, badly signed or above its tier ever gets in. */
  lemma {:induction false} RunsStayProper(scheme: SignatureScheme, st: State, steps: seq<Step>)
    requires Tracked(st) && AllProper(scheme, st)
    ensures AllProper(scheme, Run(scheme, st, steps))
    decreases |steps|
  {
    hide ApplyDiff, ConfirmEdge, ProperNode, ProperEdge, Tracked;
    if steps != [] {
      var st' := Next(scheme, st, steps[0]);
      var k: EdgeKey :| true;
      StepKeepsTracked(scheme, st, steps[0], k);
      TrackedMeans(st);
      match steps[0] {
        case Submit(d, caller, now) =>
          forall id | id in st'.nodes && st'.nodes[id].plane == Asserted ensures ProperNode(scheme, st'.nodes[id]) {
            StoredNodesAreProper(scheme, st, d, caller, now, id);
          }
          forall e | e in st'.edges && st'.edges[e].plane == Asserted ensures ProperEdge(scheme, st'.edges[e]) {
            StoredEdgesAreProper(scheme, st, d, caller, now, e);
          }
        case Confirmation(key, now) => ConfirmationKeepsProper(scheme, st, key, now);
      }
      RunsStayProper(scheme, st', steps[1..]);
    }
  }
}
