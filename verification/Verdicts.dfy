/** What the merge and the store decide about one node, one edge and one supersession, told by the
    values alone: every case of the rules, with its error and its numbers. */
module Verdicts {
  import opened Sorting
  import opened Core
  import opened Join
  import opened Store
  import opened Diff
  import opened DiffEffects

  // ---- nodes ----

  /** The state an asserter mints a node with, timestamped no more than five minutes ahead. */
  ghost predicate AsMinted(n: MemoryNode, now: nat) {
    && n.status == Active && n.validTo == None && n.confidence == [True] && n.trustTier == AgentAsserted
    && |n.anchors| == 0 && n.validFrom <= n.observedAt
    && (n.observedAt <= now + 300_000 && n.observedAt <= 0xFFFF_FFFF_FFFF_FFFF)
  }

  /** A time no earlier than five minutes ago. */
  function Floored(time: nat, now: nat): nat { if time + 300_000 < now then now - 300_000 else time }

  /** A new node: its author's is stored as it is; anyone else's only as minted, without embedding and
      with its times floored, a dropped embedding being counted. */
  lemma NewNode(st: State, n: MemoryNode, caller: Option<Bytes>, now: nat)
    requires n.Id() !in st.nodes
    ensures PlanNode(st, n, caller, now) ==
      if caller == Some(n.author) then WriteNode(n, false)
      else if !AsMinted(n, now) then RefuseNode
      else WriteNode(n.(embedding := None, validFrom := Floored(n.validFrom, now),
                        observedAt := Floored(n.observedAt, now)),
                     n.embedding.Some?)
  {
  }

  /** A stored node: what the join would leave as it is is skipped, and only its author writes it. */
  lemma StoredNode(st: State, n: MemoryNode, caller: Option<Bytes>, now: nat)
    requires n.Id() in st.nodes
    ensures var copy := if caller == Some(n.author) then n
                        else n.(embedding := None, validFrom := Floored(n.validFrom, now),
                                observedAt := Floored(n.observedAt, now));
      var joined := Join.Merge(st.nodes[n.Id()], copy);
      PlanNode(st, n, caller, now) ==
      if joined == st.nodes[n.Id()] then SkipNode
      else if caller == Some(n.author) then WriteNode(joined, false)
      else RefuseNode
  {
    hide UnionAnchors, JoinConfidence, MinEmbedding, MinOptBytes;
  }

  ghost predicate Drops(st: State, n: MemoryNode, caller: Option<Bytes>) {
    n.Id() !in st.nodes && caller != Some(n.author) && n.embedding.Some?
  }

  /** The relayed new nodes that came with an embedding. */
  ghost function Dropped(st: State, ns: seq<MemoryNode>, caller: Option<Bytes>): set<int> {
    set i | 0 <= i < |ns| && Drops(st, ns[i], caller)
  }

  lemma DropIsFlagged(st: State, n: MemoryNode, caller: Option<Bytes>, now: nat)
    requires !PlanNode(st, n, caller, now).RefuseNode?
    ensures var plan := PlanNode(st, n, caller, now);
      (plan.WriteNode? && plan.unembedded) <==> Drops(st, n, caller)
  {
    hide PlanNode, MergeNode, AsMinted;
    if n.Id() in st.nodes { StoredNode(st, n, caller, now); } else { NewNode(st, n, caller, now); }
  }

  lemma DroppedStep(st: State, ns: seq<MemoryNode>, n: MemoryNode, caller: Option<Bytes>)
    ensures |Dropped(st, ns + [n], caller)| == |Dropped(st, ns, caller)| + if Drops(st, n, caller) then 1 else 0
  {
    hide Drops;
    var all, last, before := ns + [n], |ns|, Dropped(st, ns, caller);
    assert all[last] == n;
    var after := before + if Drops(st, n, caller) then {last} else {};
    forall i ensures i in Dropped(st, all, caller) <==> i in after {
      if 0 <= i < last { assert all[i] == ns[i]; }
    }
    assert Dropped(st, all, caller) == after;
  }

  /** The report's count of dropped embeddings is their number. */
  lemma {:induction false} ReportCountsDropped(st: State, ns: seq<MemoryNode>, caller: Option<Bytes>, now: nat)
    requires !NodeRefusal(st, ns, caller, now)
    ensures Unembedded(st, ns, caller, now) == |Dropped(st, ns, caller)|
  {
    hide PlanNode, Drops;
    if ns == [] {
      assert Dropped(st, ns, caller) == {};
    } else {
      var init, n := ns[..|ns| - 1], ns[|ns| - 1];
      assert ns == init + [n];
      assert forall i :: 0 <= i < |init| ==> init[i] == ns[i];
      ReportCountsDropped(st, init, caller, now);
      DropIsFlagged(st, n, caller, now);
      DroppedStep(st, init, n, caller);
    }
  }

  // ---- edges ----

  ghost predicate Contests(k: EdgeKind) { k == Supersedes || k == Refutes || k == Contradicts }

  /** The target is known to be someone else's, and the edge is one that only its author may bring:
      a load-bearing supersession, or a proposal not signed by the caller or not within five minutes
      of now. */
  ghost predicate Trespasses(target: Option<Bytes>, e: Edge, caller: Option<Bytes>, now: nat) {
    && Contests(e.kind) && target.Some? && caller != target
    && if e.quarantined
       then caller != Some(e.provenance.asserter)
            || (e.kind == Supersedes && (e.provenance.at + 300_000 < now || now + 300_000 < e.provenance.at))
       else e.kind == Supersedes
  }

  /** Every verdict on an edge. */
  lemma EdgeVerdict(st: State, ns: seq<MemoryNode>, e: Edge, caller: Option<Bytes>, now: nat)
    ensures var stored := if e.Key() in st.edges then Some(st.edges[e.Key()]) else None;
      var mine := stored.Some? && caller == Some(stored.value.provenance.asserter);
      PlanEdge(st, ns, e, caller, now) ==
      if stored == Some(e) then SkipEdge
      else if stored.Some? && e.quarantined && !stored.value.quarantined then SkipEdge
      else if stored.Some? && !mine && stored.value.quarantined && !e.quarantined then RefuseEdge(EdgePromotion)
      else if stored.Some? && !mine then RefuseEdge(NotAuthor)
      else if Trespasses(TargetAuthor(st, ns, e.to), e, caller, now) then RefuseEdge(NotAuthor)
      else if e.kind == Supersedes && !e.quarantined then SupersedeEdge
      else if stored.None? && !e.quarantined && caller != Some(e.provenance.asserter) then RefuseEdge(NotAuthor)
      else PlainEdge
  {
    hide TargetAuthor;
  }

  /** Whose node the target is: the diff's own copy or else the stored one says. */
  lemma TargetIs(st: State, ns: seq<MemoryNode>, to: ContentHash)
    requires Keyed(st)
    ensures TargetAuthor(st, ns, to) ==
      if (exists i :: 0 <= i < |ns| && ns[i].Id() == to) || to in st.nodes then Some(to.author) else None
  {
    FirstWithIdAuthor(ns, to);
  }

  /** Nodes are judged before edges, and the first refused edge decides. */
  lemma RefusalOrder(scheme: SignatureScheme, st: State, d: MemoryDiff, caller: Option<Bytes>, now: nat, i: nat)
    requires VerifyNodes(scheme, d.nodes).None? && VerifyEdges(scheme, d.edges).None?
    ensures i < |d.nodes| && PlanNode(st, d.nodes[i], caller, now).RefuseNode? ==>
      ApplyDiff(scheme, st, d, caller, now) == (st, Err(NotAuthor))
    ensures (&& (forall j :: 0 <= j < |d.nodes| ==> !PlanNode(st, d.nodes[j], caller, now).RefuseNode?)
             && i < |d.edges| && PlanEdge(st, d.nodes, d.edges[i], caller, now).RefuseEdge?
             && (forall j :: 0 <= j < i ==> !PlanEdge(st, d.nodes, d.edges[j], caller, now).RefuseEdge?)) ==>
      ApplyDiff(scheme, st, d, caller, now) == (st, Err(PlanEdge(st, d.nodes, d.edges[i], caller, now).error))
  {
    hide PlanNode, PlanEdge, ApplyAll, Committed, VerifyNodes, VerifyEdges;
    if (forall j :: 0 <= j < |d.nodes| ==> !PlanNode(st, d.nodes[j], caller, now).RefuseNode?)
       && i < |d.edges| && PlanEdge(st, d.nodes, d.edges[i], caller, now).RefuseEdge?
       && (forall j :: 0 <= j < i ==> !PlanEdge(st, d.nodes, d.edges[j], caller, now).RefuseEdge?) {
      FirstRefused(st, d.nodes, d.edges, caller, now, i);
    }
  }

  lemma {:induction false} FirstRefused(st: State, ns: seq<MemoryNode>, es: seq<Edge>, caller: Option<Bytes>,
                                        now: nat, i: nat)
    requires i < |es| && PlanEdge(st, ns, es[i], caller, now).RefuseEdge?
    requires forall j :: 0 <= j < i ==> !PlanEdge(st, ns, es[j], caller, now).RefuseEdge?
    ensures EdgeRefusal(st, ns, es, caller, now) == Some(PlanEdge(st, ns, es[i], caller, now).error)
  {
    hide PlanEdge;
    var init := es[..|es| - 1];
    if i < |es| - 1 {
      FirstRefused(st, ns, init, caller, now, i);
    } else {
      NoneRefused(st, ns, init, caller, now);
    }
  }

  lemma {:induction false} NoneRefused(st: State, ns: seq<MemoryNode>, es: seq<Edge>, caller: Option<Bytes>, now: nat)
    requires forall j :: 0 <= j < |es| ==> !PlanEdge(st, ns, es[j], caller, now).RefuseEdge?
    ensures EdgeRefusal(st, ns, es, caller, now).None?
  {
    hide PlanEdge;
    if es != [] { NoneRefused(st, ns, es[..|es| - 1], caller, now); }
  }

  // ---- supersessions ----

  /** Every verdict on a supersession, in the order of the checks, and what it does. */
  lemma SupersessionVerdict(st: State, e: Edge)
    ensures ApplySupersession(st, e) ==
      if e.kind != Supersedes then Rejected(NotSupersedes)
      else if e.quarantined then Rejected(Quarantined)
      else if e.from == e.to then Rejected(SelfSupersede)
      else if e.from !in st.nodes || e.to !in st.nodes then Rejected(MissingNode)
      else if e.plane == Asserted && st.nodes[e.to].plane == Derived then Rejected(PlaneViolation)
      else if Reaches(st.edges, Supersedes, e.to, e.from) then Rejected(Cycle)
      else
        var active := st.nodes[e.to].status == Active;
        Applied(State(if active then st.nodes[e.to := Ended(st.nodes[e.to], e.provenance.at)] else st.nodes,
                      st.edges[EdgeKey(e.from, e.to, e.kind) := e], st.inserters), active)
  {
    hide Reaches;
  }

  /** Superseded, its validity ending at the given time but not before it began. */
  function Ended(n: MemoryNode, at: nat): MemoryNode {
    n.(status := Status.Superseded, validTo := Some(if at < n.validFrom then n.validFrom else at))
  }

  /** Over a whole diff: whatever it retires was Active and ends at the time of one of its
      supersessions, or where it began if that is later. */
  lemma {:induction false} RetiredAt(st: State, es: seq<Edge>, id: ContentHash)
    requires id in st.nodes
    ensures var after := ApplyAll(st, es).state.nodes;
      && id in after
      && (after[id] == st.nodes[id] ||
          (st.nodes[id].status == Active
           && exists e :: e in es && e.to == id && after[id] == Ended(st.nodes[id], e.provenance.at)))
  {
    hide ApplySupersession, Ended;
    if es != [] {
      var init, x := es[..|es| - 1], es[|es| - 1];
      RetiredAt(st, init, id);
      assert es == init + [x];
      OneRetirement(ApplyAll(st, init).state, x, id);
      EndedIsNotActive(st.nodes[id], x.provenance.at);
      if e :| e in init && e.to == id && ApplyAll(st, init).state.nodes[id] == Ended(st.nodes[id], e.provenance.at) {
        EndedIsNotActive(st.nodes[id], e.provenance.at);
        assert e in es;
      }
    }
  }

  lemma EndedIsNotActive(n: MemoryNode, at: nat)
    ensures Ended(n, at).status == Status.Superseded
  {
  }

  lemma OneRetirement(st: State, e: Edge, id: ContentHash)
    requires id in st.nodes
    ensures match ApplySupersession(st, e)
      case Rejected(_) => true
      case Applied(st', _) =>
        && id in st'.nodes
        && st'.nodes[id] == if id == e.to && st.nodes[id].status == Active then Ended(st.nodes[id], e.provenance.at)
                            else st.nodes[id]
  {
    hide Reaches;
  }

  // ---- batches and confirmations ----

  /** A written edge is kept out exactly when it is a proposal over a stored load-bearing edge. */
  lemma DemotionMeans(stored: map<EdgeKey, Edge>, e: Edge)
    ensures PutEdges(stored, [e]) ==
      if e.quarantined && EdgeKey(e.from, e.to, e.kind) in stored && !stored[EdgeKey(e.from, e.to, e.kind)].quarantined
      then stored else stored[EdgeKey(e.from, e.to, e.kind) := e]
  {
    assert [e][..0] == [] && PutEdges(stored, [e][..0]) == stored;
  }

  /** A confirmation: unknown and already confirmed edges are left; a supersession is applied as of
      now; any other proposal loses its quarantine and nothing else. */
  lemma ConfirmationVerdict(st: State, key: EdgeKey, now: nat)
    requires Keyed(st)
    ensures ConfirmEdge(st, key, now) ==
      if key !in st.edges then (st, NotFound)
      else if !st.edges[key].quarantined then (st, AlreadyConfirmed)
      else
        var e := st.edges[key].(quarantined := false);
        if key.kind != Supersedes then (State(st.nodes, st.edges[key := e], st.inserters), Promoted)
        else match ApplySupersession(st, e.(provenance := e.provenance.(at := now)))
          case Applied(st', _) => (st', Promoted)
          case Rejected(err) => (st, Failed(err))
  {
    hide ApplySupersession;
    if key in st.edges { DemotionMeans(st.edges, st.edges[key].(quarantined := false)); }
  }
}
