/** The author-gated merge of a memory diff (crates/mem-assert/src/lib.rs). Every check
    runs against the store as it was before the merge, and before any write. */
module Diff {
  import opened Sorting
  import opened Core
  import opened Join
  import opened Store

  const RELAY_CLOCK_SKEW_MS: nat := 300_000

  function SatSub(a: nat, b: nat): nat { if a >= b then a - b else 0 }
  function AbsDiff(a: nat, b: nat): nat { if a >= b then a - b else b - a }

  datatype AssertError =
    | Unsigned | BadSignature | BadAuthor | NotAssertable | NotAuthor | EdgePromotion
    | Supersession(error: SupersessionError)

  datatype MergeReport = MergeReport(nodes: nat, edges: nat, superseded: nat, unembedded: nat)

  datatype MergeResult = Ok(report: MergeReport) | Err(error: AssertError)

  /** `author` and `created_at_ms` are carried by a diff and read by nothing here. */
  datatype MemoryDiff = MemoryDiff(nodes: seq<MemoryNode>, edges: seq<Edge>)

  // ---- signatures ----

  /** What a signature is over: a node id or an edge key. */
  datatype Message = NodeMessage(id: ContentHash) | EdgeMessage(key: EdgeKey)

  /** How a public key judges a signature on a message: `None` when it verifies. */
  type SignatureScheme = (Bytes, Message, Bytes) -> Option<AssertError>

  function VerifySig(scheme: SignatureScheme, who: Bytes, msg: Message, sig: Option<Bytes>): Option<AssertError> {
    if sig.None? then Some(Unsigned) else scheme(who, msg, sig.value)
  }

  predicate Assertable(plane: Plane, tier: TrustTier) {
    plane == Asserted && (tier == AgentAsserted || tier == InferredAdvisory)
  }

  function VerifyNode(scheme: SignatureScheme, n: MemoryNode): Option<AssertError> {
    if !Assertable(n.plane, n.trustTier) then Some(NotAssertable)
    else VerifySig(scheme, n.author, NodeMessage(n.Id()), n.signature)
  }

  function VerifyEdge(scheme: SignatureScheme, e: Edge): Option<AssertError> {
    if !Assertable(e.plane, e.trustTier) then Some(NotAssertable)
    else VerifySig(scheme, e.provenance.asserter, EdgeMessage(e.Key()), e.signature)
  }

  function VerifyNodes(scheme: SignatureScheme, ns: seq<MemoryNode>): Option<AssertError> {
    if ns == [] then None
    else
      var err := VerifyNodes(scheme, ns[..|ns| - 1]);
      if err.Some? then err else VerifyNode(scheme, ns[|ns| - 1])
  }

  function VerifyEdges(scheme: SignatureScheme, es: seq<Edge>): Option<AssertError> {
    if es == [] then None
    else
      var err := VerifyEdges(scheme, es[..|es| - 1]);
      if err.Some? then err else VerifyEdge(scheme, es[|es| - 1])
  }

  // ---- nodes ----

  /** The advisory state an asserter mints a node with, timestamped no later than now. */
  predicate IsAsAsserted(n: MemoryNode, now: nat) {
    && n.status == Active
    && n.validTo.None?
    && n.confidence == [True]
    && n.trustTier == AgentAsserted
    && n.anchors == []
    && n.validFrom <= n.observedAt
    && n.observedAt <= SatAdd(now, RELAY_CLOCK_SKEW_MS)
  }

  /** A non-author copy contributes no embedding and no time before "about now". */
  function Incoming(n: MemoryNode, own: bool, now: nat): MemoryNode {
    if own then n
    else
      var floor := SatSub(now, RELAY_CLOCK_SKEW_MS);
      n.(embedding := None, validFrom := Max(n.validFrom, floor), observedAt := Max(n.observedAt, floor))
  }

  datatype NodePlan = RefuseNode | SkipNode | WriteNode(node: MemoryNode, unembedded: bool)

  function PlanNode(st: State, n: MemoryNode, caller: Option<Bytes>, now: nat): NodePlan {
    var own := caller == Some(n.author);
    var incoming := Incoming(n, own, now);
    if n.Id() !in st.nodes then
      if !own && !IsAsAsserted(n, now) then RefuseNode
      else WriteNode(incoming, !own && n.embedding.Some?)
    else
      var joined := MergeNode(st.nodes[n.Id()], incoming);
      if !joined.changed then SkipNode
      else if !own then RefuseNode
      else WriteNode(joined.node, false)
  }

  // ---- edges ----

  predicate NeedsSecondParty(kind: EdgeKind) {
    kind == Supersedes || kind == Refutes || kind == Contradicts
  }

  function FirstWithId(ns: seq<MemoryNode>, id: ContentHash): Option<MemoryNode> {
    if ns == [] then None
    else if ns[0].Id() == id then Some(ns[0])
    else FirstWithId(ns[1..], id)
  }

  /** The author of an edge's target, wherever the target is known from. */
  function TargetAuthor(st: State, ns: seq<MemoryNode>, to: ContentHash): Option<Bytes> {
    match FirstWithId(ns, to)
    case Some(n) => Some(n.author)
    case None => if to in st.nodes then Some(st.nodes[to].author) else None
  }

  datatype EdgePlan = RefuseEdge(error: AssertError) | SkipEdge | PlainEdge | SupersedeEdge

  function PlanEdge(st: State, ns: seq<MemoryNode>, e: Edge, caller: Option<Bytes>, now: nat): EdgePlan {
    var stored := if e.Key() in st.edges then Some(st.edges[e.Key()]) else None;
    if stored == Some(e) then SkipEdge
    else if stored.Some? && stored.value.quarantined && !e.quarantined
            && caller != Some(stored.value.provenance.asserter) then
      RefuseEdge(EdgePromotion)
    else if stored.Some? && e.quarantined && !stored.value.quarantined then SkipEdge
    else if stored.Some? && caller != Some(stored.value.provenance.asserter) then RefuseEdge(NotAuthor)
    else
      var author := if NeedsSecondParty(e.kind) then TargetAuthor(st, ns, e.to) else None;
      var foreign := author.Some? && caller != author;
      if e.quarantined && foreign && e.kind == Supersedes && AbsDiff(e.provenance.at, now) > RELAY_CLOCK_SKEW_MS then
        RefuseEdge(NotAuthor)
      else if e.quarantined && foreign && caller != Some(e.provenance.asserter) then RefuseEdge(NotAuthor)
      else if e.kind == Supersedes && !e.quarantined then
        if foreign then RefuseEdge(NotAuthor) else SupersedeEdge
      else if stored.None? && !e.quarantined && caller != Some(e.provenance.asserter) then RefuseEdge(NotAuthor)
      else PlainEdge
  }

  // ---- the plan for a whole diff ----

  predicate NodeRefusal(st: State, ns: seq<MemoryNode>, caller: Option<Bytes>, now: nat) {
    exists i :: 0 <= i < |ns| && PlanNode(st, ns[i], caller, now).RefuseNode?
  }

  function NodeWrites(st: State, ns: seq<MemoryNode>, caller: Option<Bytes>, now: nat): seq<MemoryNode> {
    if ns == [] then []
    else
      NodeWrites(st, ns[..|ns| - 1], caller, now) +
      match PlanNode(st, ns[|ns| - 1], caller, now) case WriteNode(w, _) => [w] case _ => []
  }

  function Unembedded(st: State, ns: seq<MemoryNode>, caller: Option<Bytes>, now: nat): nat {
    if ns == [] then 0
    else
      Unembedded(st, ns[..|ns| - 1], caller, now) +
      match PlanNode(st, ns[|ns| - 1], caller, now) case WriteNode(_, true) => 1 case _ => 0
  }

  /** The first refusal among the edges. */
  function EdgeRefusal(st: State, ns: seq<MemoryNode>, es: seq<Edge>, caller: Option<Bytes>,
                       now: nat): Option<AssertError> {
    if es == [] then None
    else
      var err := EdgeRefusal(st, ns, es[..|es| - 1], caller, now);
      if err.Some? then err
      else match PlanEdge(st, ns, es[|es| - 1], caller, now) case RefuseEdge(x) => Some(x) case _ => None
  }

  function Planned(st: State, ns: seq<MemoryNode>, es: seq<Edge>, caller: Option<Bytes>, now: nat,
                   plan: EdgePlan): seq<Edge> {
    if es == [] then []
    else
      Planned(st, ns, es[..|es| - 1], caller, now, plan) +
      if PlanEdge(st, ns, es[|es| - 1], caller, now) == plan then [es[|es| - 1]] else []
  }

  // ---- the writes ----

  /** Record who inserted each contesting proposal whose target's tenant is known. */
  function RecordInserters(st: State, ns: seq<MemoryNode>, plain: seq<Edge>, caller: Option<Bytes>): State {
    if plain == [] then st
    else
      var e, before := plain[|plain| - 1], RecordInserters(st, ns, plain[..|plain| - 1], caller);
      if caller.Some? && NeedsSecondParty(e.kind) && e.quarantined && (FirstWithId(ns, e.to).Some? || e.to in st.nodes)
      then before.(inserters := before.inserters[e.Key() := caller.value])
      else before
  }

  datatype Progress = Progress(state: State, superseded: nat, error: Option<SupersessionError>)

  /** Apply supersessions in order, stopping at the first rejected one. */
  ghost function ApplyAll(st: State, es: seq<Edge>): Progress {
    if es == [] then Progress(st, 0, None)
    else
      var p := ApplyAll(st, es[..|es| - 1]);
      if p.error.Some? then p
      else match ApplySupersession(p.state, es[|es| - 1])
        case Applied(st', t) => Progress(st', p.superseded + (if t then 1 else 0), None)
        case Rejected(err) => Progress(p.state, p.superseded, Some(err))
  }

  /** The store after the batch commit and the inserter records. */
  ghost function Committed(st: State, d: MemoryDiff, caller: Option<Bytes>, now: nat): State {
    var plain := Planned(st, d.nodes, d.edges, caller, now, PlainEdge);
    var st' := st.(nodes := PutNodes(st.nodes, NodeWrites(st, d.nodes, caller, now)),
                   edges := PutEdges(st.edges, plain));
    RecordInserters(st', d.nodes, plain, caller)
  }

  /** Why a diff is refused before anything is written, if it is. */
  ghost function Refusal(scheme: SignatureScheme, st: State, d: MemoryDiff, caller: Option<Bytes>,
                         now: nat): Option<AssertError> {
    if VerifyNodes(scheme, d.nodes).Some? then VerifyNodes(scheme, d.nodes)
    else if VerifyEdges(scheme, d.edges).Some? then VerifyEdges(scheme, d.edges)
    else if NodeRefusal(st, d.nodes, caller, now) then Some(NotAuthor)
    else EdgeRefusal(st, d.nodes, d.edges, caller, now)
  }

  ghost function ApplyDiff(scheme: SignatureScheme, st: State, d: MemoryDiff, caller: Option<Bytes>,
                           now: nat): (State, MergeResult) {
    var refusal := Refusal(scheme, st, d, caller, now);
    if refusal.Some? then (st, Err(refusal.value))
    else
      var p := ApplyAll(Committed(st, d, caller, now), Planned(st, d.nodes, d.edges, caller, now, SupersedeEdge));
      (p.state,
       if p.error.Some? then Err(Supersession(p.error.value))
       else Ok(MergeReport(|d.nodes|, |d.edges|, p.superseded, Unembedded(st, d.nodes, caller, now))))
  }

  // ---- the merge as it runs ----

  /** The node loop: `None` for a refused diff, else what to write and how many relayed
      embeddings were dropped. */
  method PlanNodes(st: State, ns: seq<MemoryNode>, caller: Option<Bytes>, now: nat)
    returns (plan: Option<(seq<MemoryNode>, nat)>)
    ensures plan.None? <==> NodeRefusal(st, ns, caller, now)
    ensures plan.Some? ==>
      plan.value == (NodeWrites(st, ns, caller, now), Unembedded(st, ns, caller, now))
  {
    hide PlanNode;
    var toWrite: seq<MemoryNode>, unembedded := [], 0;
    for i := 0 to |ns|
      invariant !NodeRefusal(st, ns[..i], caller, now)
      invariant toWrite == NodeWrites(st, ns[..i], caller, now)
      invariant unembedded == Unembedded(st, ns[..i], caller, now)
    {
      assert ns[..i + 1][..i] == ns[..i];
      match PlanNode(st, ns[i], caller, now) {
        case RefuseNode => return None;
        case SkipNode =>
        case WriteNode(w, dropped) =>
          toWrite := toWrite + [w];
          unembedded := unembedded + if dropped then 1 else 0;
      }
    }
    assert ns[..|ns|] == ns;
    plan := Some((toWrite, unembedded));
  }

  /** The edge loop: the first refusal, else the plain edges and the supersessions. */
  method PlanEdges(st: State, ns: seq<MemoryNode>, es: seq<Edge>, caller: Option<Bytes>, now: nat)
    returns (refusal: Option<AssertError>, plain: seq<Edge>, supersessions: seq<Edge>)
    ensures refusal == EdgeRefusal(st, ns, es, caller, now)
    ensures refusal.None? ==> plain == Planned(st, ns, es, caller, now, PlainEdge)
    ensures refusal.None? ==> supersessions == Planned(st, ns, es, caller, now, SupersedeEdge)
  {
    hide PlanEdge;
    plain, supersessions := [], [];
    for i := 0 to |es|
      invariant EdgeRefusal(st, ns, es[..i], caller, now).None?
      invariant plain == Planned(st, ns, es[..i], caller, now, PlainEdge)
      invariant supersessions == Planned(st, ns, es[..i], caller, now, SupersedeEdge)
    {
      assert es[..i + 1][..i] == es[..i];
      match PlanEdge(st, ns, es[i], caller, now) {
        case RefuseEdge(x) =>
          RefusalStays(st, ns, es, caller, now, i + 1);
          return Some(x), [], [];
        case SkipEdge =>
        case PlainEdge => plain := plain + [es[i]];
        case SupersedeEdge => supersessions := supersessions + [es[i]];
      }
    }
    assert es[..|es|] == es;
    refusal := None;
  }

  method PutInserters(store: MemoryDagStore, ns: seq<MemoryNode>, plain: seq<Edge>, caller: Option<Bytes>)
    modifies store
    ensures store.Value() == RecordInserters(old(store.Value()), ns, plain, caller)
  {
    for i := 0 to |plain|
      invariant store.Value() == RecordInserters(old(store.Value()), ns, plain[..i], caller)
      invariant store.nodes == old(store.nodes)
    {
      assert plain[..i + 1][..i] == plain[..i];
      var e := plain[i];
      if caller.Some? && NeedsSecondParty(e.kind) && e.quarantined {
        if FirstWithId(ns, e.to).Some? || e.to in store.nodes {
          store.inserters := store.inserters[e.Key() := caller.value];
        }
      }
    }
    assert plain[..|plain|] == plain;
  }

  method SupersedeAll(store: MemoryDagStore, es: seq<Edge>)
    returns (superseded: nat, failure: Option<SupersessionError>)
    modifies store
    ensures ApplyAll(old(store.Value()), es) == Progress(store.Value(), superseded, failure)
  {
    superseded := 0;
    for i := 0 to |es|
      invariant ApplyAll(old(store.Value()), es[..i]) == Progress(store.Value(), superseded, None)
    {
      assert es[..i + 1][..i] == es[..i];
      var error, transitioned := store.Supersede(es[i]);
      if error.Some? {
        FailureStays(old(store.Value()), es, i + 1);
        return superseded, error;
      }
      superseded := superseded + if transitioned then 1 else 0;
    }
    assert es[..|es|] == es;
    failure := None;
  }

  method MergeDiff(scheme: SignatureScheme, store: MemoryDagStore, d: MemoryDiff, caller: Option<Bytes>, now: nat)
    returns (result: MergeResult)
    modifies store
    ensures (store.Value(), result) == ApplyDiff(scheme, old(store.Value()), d, caller, now)
  {
    var err := VerifyNodes(scheme, d.nodes);
    if err.Some? { return Err(err.value); }
    err := VerifyEdges(scheme, d.edges);
    if err.Some? { return Err(err.value); }
    var current := State(store.nodes, store.edges, store.inserters);
    var nodePlan := PlanNodes(current, d.nodes, caller, now);
    if nodePlan.None? { return Err(NotAuthor); }
    var refusal, plain, supersessions := PlanEdges(current, d.nodes, d.edges, caller, now);
    if refusal.Some? { return Err(refusal.value); }
    store.Commit(nodePlan.value.0, plain);
    PutInserters(store, d.nodes, plain, caller);
    var superseded, failure := SupersedeAll(store, supersessions);
    if failure.Some? { return Err(Supersession(failure.value)); }
    result := Ok(MergeReport(|d.nodes|, |d.edges|, superseded, nodePlan.value.1));
  }

  lemma {:induction false} RefusalStays(st: State, ns: seq<MemoryNode>, es: seq<Edge>, caller: Option<Bytes>,
                                        now: nat, i: nat)
    requires i <= |es| && EdgeRefusal(st, ns, es[..i], caller, now).Some?
    ensures EdgeRefusal(st, ns, es, caller, now) == EdgeRefusal(st, ns, es[..i], caller, now)
    decreases |es| - i
  {
    if i < |es| {
      assert es[..i + 1][..i] == es[..i];
      RefusalStays(st, ns, es, caller, now, i + 1);
    } else {
      assert es[..i] == es;
    }
  }

  lemma {:induction false} FailureStays(st: State, es: seq<Edge>, i: nat)
    requires i <= |es| && ApplyAll(st, es[..i]).error.Some?
    ensures ApplyAll(st, es) == ApplyAll(st, es[..i])
    decreases |es| - i
  {
    if i < |es| {
      assert es[..i + 1][..i] == es[..i];
      FailureStays(st, es, i + 1);
    } else {
      assert es[..i] == es;
    }
  }
}
