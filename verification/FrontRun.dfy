/** Relays that write before an author's own merge: what they can do to the author's nodes, and
    exactly when they can have the author's diff refused. */
module FrontRun {
  import opened Sorting
  import opened Core
  import opened Join
  import opened Store
  import opened Diff
  import opened DiffEffects
  import opened DiffRuns
  import opened DiffReplay

  // ---- the author's nodes ----

  /** A relayed first insert at clock `now`: as asserted, with no embedding and no early times. */
  ghost predicate RelayInsert(n: MemoryNode, now: nat) {
    && n.status == Active && n.validTo.None? && n.confidence == [True]
    && n.trustTier == AgentAsserted && n.anchors == [] && n.embedding.None?
    && n.validFrom >= SatSub(now, RELAY_CLOCK_SKEW_MS) && n.observedAt >= SatSub(now, RELAY_CLOCK_SKEW_MS)
  }

  ghost predicate SignedBy(scheme: SignatureScheme, id: ContentHash, signature: Option<Bytes>) {
    VerifySig(scheme, id.author, NodeMessage(id), signature).None?
  }

  lemma {:induction false} EachVerifies(scheme: SignatureScheme, ns: seq<MemoryNode>, i: nat)
    requires i < |ns| && VerifyNodes(scheme, ns).None?
    ensures VerifyNode(scheme, ns[i]).None?
  {
    if i < |ns| - 1 { EachVerifies(scheme, ns[..|ns| - 1], i); }
  }

  lemma RelayedInsertShape(scheme: SignatureScheme, st: State, d: MemoryDiff, caller: Option<Bytes>, now: nat,
                           id: ContentHash)
    requires Keyed(st) && id !in st.nodes && caller != Some(id.author)
    requires id in ApplyDiff(scheme, st, d, caller, now).0.nodes
    ensures RelayInsert(ApplyDiff(scheme, st, d, caller, now).0.nodes[id], now)
    ensures SignedBy(scheme, id, ApplyDiff(scheme, st, d, caller, now).0.nodes[id].signature)
  {
    hide Committed, ApplyAll, PlanEdge, MergeNode, Planned, NodeWrites, PutNodes, OnlyStores, AllStored, VerifyEdges,
      EdgeRefusal;
    var c := Committed(st, d, caller, now);
    var sup := Planned(st, d.nodes, d.edges, caller, now, SupersedeEdge);
    CommittedRows(st, d, caller, now);
    NodesAfter(st, d.nodes, caller, now, id);
    SupersessionsOnly(c, sup);
    PlannedSpec(st, d.nodes, d.edges, caller, now, SupersedeEdge);
    if Targeted(sup, id) {
      var e :| e in sup && e.to == id;
      SupersessionIsByAuthor(st, d, e, caller, now);
    }
    var i :| WritesNode(st, d.nodes, caller, now, i, id) && c.nodes[id] == PlanNode(st, d.nodes[i], caller, now).node;
    EachVerifies(scheme, d.nodes, i);
  }

  /** Step `j` of the run is the one that first stores `id`. */
  ghost predicate FirstInsert(scheme: SignatureScheme, st: State, steps: seq<Step>, id: ContentHash, j: int) {
    && 0 <= j < |steps|
    && id !in Run(scheme, st, steps[..j]).nodes && id in Run(scheme, st, steps[..j + 1]).nodes
  }

  lemma {:induction false} RelaysInsert(scheme: SignatureScheme, st: State, steps: seq<Step>, id: ContentHash)
    requires Keyed(st) && id !in st.nodes && SubmittedByOthers(steps, id.author)
    requires id in Run(scheme, st, steps).nodes
    ensures exists j ::
      FirstInsert(scheme, st, steps, id, j) && RelayInsert(Run(scheme, st, steps).nodes[id], steps[j].now)
    ensures SignedBy(scheme, id, Run(scheme, st, steps).nodes[id].signature)
    decreases |steps|
  {
    hide ApplyDiff, RelayInsert;
    var s, rest := steps[0], steps[1..];
    var st1 := Next(scheme, st, s);
    OnlyAuthorsChange(scheme, st, s.diff, s.caller, s.now);
    if id in st1.nodes {
      RelayedInsertShape(scheme, st, s.diff, s.caller, s.now, id);
      OthersNeverChangeNode(scheme, st1, rest, id);
      assert steps[..1] == [s] && steps[..0] == [];
      assert Run(scheme, st, [s]) == st1;
      assert FirstInsert(scheme, st, steps, id, 0);
    } else {
      RelaysInsert(scheme, st1, rest, id);
      var j :| FirstInsert(scheme, st1, rest, id, j) && RelayInsert(Run(scheme, st1, rest).nodes[id], rest[j].now);
      assert steps[..j + 1][1..] == rest[..j] && steps[..j + 2][1..] == rest[..j + 1];
      assert FirstInsert(scheme, st, steps, id, j + 1);
    }
  }

  /** The author's copy could have been joined without loss: it asserts the claim, and its
      anchors are in order. */
  ghost predicate Plain(n: MemoryNode) {
    n.confidence != [] && (n.confidence[0] == True || n.confidence[0] == Both) && Canonical(n.anchors)
  }

  /** Equal but for the signature and the two times. */
  ghost predicate SameUpToRelay(got: MemoryNode, n: MemoryNode) {
    got == n.(signature := got.signature, validFrom := got.validFrom, observedAt := got.observedAt)
  }

  lemma JoinOverRelay(stored: MemoryNode, n: MemoryNode, now: nat)
    requires RelayInsert(stored, now) && stored.Id() == n.Id() && Assertable(n.plane, n.trustTier)
    ensures var got := Join.Merge(stored, n); var floor := SatSub(now, RELAY_CLOCK_SKEW_MS);
      && got.validFrom >= Min(n.validFrom, floor) && got.observedAt >= Min(n.observedAt, floor)
      && got.validFrom <= n.validFrom && got.observedAt <= n.observedAt
      && (got.signature == stored.signature || got.signature == n.signature)
      && (SameUpToRelay(got, n) <==> Plain(n))
  {
    hide UnionAnchors, JoinConfidence, Canonical;
    RelayFields(n);
  }

  lemma RelayFields(n: MemoryNode)
    ensures UnionAnchors([], n.anchors) == n.anchors <==> Canonical(n.anchors)
    ensures JoinConfidence([True], n.confidence) == n.confidence <==>
      n.confidence != [] && (n.confidence[0] == True || n.confidence[0] == Both)
  {
    UnionSpec([], n.anchors);
    UnionIsJoin(n.anchors, n.anchors, []);
    var c := JoinConfidence([True], n.confidence);
    assert n.confidence != [] ==> |c| == |n.confidence| && c[0] == True.Join(n.confidence[0]);
    assert n.confidence == [] ==> |c| == 1;
  }

  /** What the author's merge of `n` leaves after the run `steps`: `n` itself when nobody was
      ahead; else `n` but for a choice between two valid signatures and the two times, each no
      earlier than the relay floor at the first insert or the author's own value, exactly when
      the copy asserts the claim and its anchors are in order. */
  ghost predicate AsInserted(scheme: SignatureScheme, st: State, steps: seq<Step>, n: MemoryNode, got: MemoryNode) {
    var id, relayed := n.Id(), Run(scheme, st, steps);
    && (id !in relayed.nodes ==> got == n)
    && SignedBy(scheme, id, got.signature)
    && (id in relayed.nodes ==>
          && (exists j :: FirstInsert(scheme, st, steps, id, j)
                && got.validFrom >= Min(n.validFrom, SatSub(steps[j].now, RELAY_CLOCK_SKEW_MS))
                && got.observedAt >= Min(n.observedAt, SatSub(steps[j].now, RELAY_CLOCK_SKEW_MS)))
          && (SameUpToRelay(got, n) <==> Plain(n)))
  }

  /** After any run of merges by others, an author's merge that passes the checks leaves what a
      direct insert would, retired only if the author's diff itself supersedes it. */
  lemma AuthorsMergeLands(scheme: SignatureScheme, st: State, steps: seq<Step>, d: MemoryDiff, i: nat, now: nat)
    returns (got: MemoryNode)
    requires Keyed(st) && DistinctItems(d) && i < |d.nodes| && d.nodes[i].Id() !in st.nodes
    requires SubmittedByOthers(steps, d.nodes[i].author)
    requires Refusal(scheme, Run(scheme, st, steps), d, Some(d.nodes[i].author), now).None?
    ensures AsInserted(scheme, st, steps, d.nodes[i], got)
    ensures var n, id := d.nodes[i], d.nodes[i].Id();
      var st' := ApplyDiff(scheme, Run(scheme, st, steps), d, Some(n.author), now).0;
      id in st'.nodes && (st'.nodes[id] == got || (IsRetirement(got, st'.nodes[id]) && CarriesSupersession(d, id)))
  {
    hide ApplyDiff, MergeNode, PlanEdge, RelayInsert, Plain, Refusal, Kept;
    var n, id := d.nodes[i], d.nodes[i].Id();
    var relayed := Run(scheme, st, steps);
    RunKeeps(scheme, st, steps, n.author);
    KeptIsKeyed(st, relayed, n.author);
    Passed(scheme, relayed, d, Some(n.author), now);
    EachVerifies(scheme, d.nodes, i);
    got := NodeAfterMerge(scheme, relayed, d, Some(n.author), now, i);
    if id in relayed.nodes {
      RelaysInsert(scheme, st, steps, id);
      var j :| FirstInsert(scheme, st, steps, id, j) && RelayInsert(relayed.nodes[id], steps[j].now);
      JoinOverRelay(relayed.nodes[id], n, steps[j].now);
      ChangedMeansNotAbsorbed(relayed.nodes[id], n);
      assert got == Join.Merge(relayed.nodes[id], n);
    }
  }

  /** A copy that is not plain can be altered by a relay: someone relays the claim as asserted,
      then its author stores it as false, and the store holds a contradiction. */
  lemma RelayContradictsAuthor(scheme: SignatureScheme, st: State, r: MemoryNode, n: MemoryNode, b: Bytes,
                               now: nat, later: nat)
    requires Keyed(st) && n.Id() !in st.nodes && r.Id() == n.Id() && n.author != b
    requires IsAsAsserted(r, now) && n.confidence == [False]
    requires VerifyNode(scheme, r).None? && VerifyNode(scheme, n).None?
    ensures var relayed := ApplyDiff(scheme, st, MemoryDiff([r], []), Some(b), now).0;
      var (st', result) := ApplyDiff(scheme, relayed, MemoryDiff([n], []), Some(n.author), later);
      && result.Ok? && n.Id() in st'.nodes && st'.nodes[n.Id()].confidence == [Both]
      && ApplyDiff(scheme, st, MemoryDiff([n], []), Some(n.author), later).0.nodes[n.Id()] == n
  {
    hide ApplyDiff, VerifyNode, PlanNode, MergeNode;
    var relayed := ApplyDiff(scheme, st, MemoryDiff([r], []), Some(b), now).0;
    OnlyAuthorsChange(scheme, st, MemoryDiff([r], []), Some(b), now);
    OneNode(scheme, st, r, Some(b), now);
    OneNode(scheme, st, n, Some(n.author), later);
    OneNode(scheme, relayed, n, Some(n.author), later);
    NewIsWritten(st, n, later);
    RelayPlan(st, r, b, now);
    AuthorPlan(relayed, n, later);
  }

  lemma RelayPlan(st: State, r: MemoryNode, b: Bytes, now: nat)
    requires r.Id() !in st.nodes && r.author != b && IsAsAsserted(r, now)
    ensures PlanNode(st, r, Some(b), now).WriteNode?
    ensures PlanNode(st, r, Some(b), now).node == Incoming(r, false, now)
  {
  }

  lemma AuthorPlan(st: State, n: MemoryNode, now: nat)
    requires n.Id() in st.nodes && st.nodes[n.Id()].confidence == [True] && n.confidence == [False]
    ensures var plan := PlanNode(st, n, Some(n.author), now); plan.WriteNode? && plan.node.confidence == [Both]
  {
    hide UnionAnchors, MinEmbedding, MinOptBytes;
    assert JoinConfidence([True], [False]) == [Both];
  }

  // ---- what a run by others keeps ----

  /** What absorbs a copy still does after more is merged in. */
  lemma AbsorbsMore(s: MemoryNode, x: MemoryNode, y: MemoryNode)
    requires x.Id() == y.Id() && Absorbs(s, y)
    ensures Absorbs(Join.Merge(s, x), y)
  {
    hide MergeNode;
    MergeAssociates(s, x, y);
    MergeAssociates(s, y, x);
    MergeCommutes(x, y);
  }

  lemma MergeKeepsAbsorbing(scheme: SignatureScheme, st: State, d: MemoryDiff, caller: Option<Bytes>, now: nat,
                            y: MemoryNode)
    requires Keyed(st) && y.Id() in st.nodes && Absorbs(st.nodes[y.Id()], y)
    ensures var st' := ApplyDiff(scheme, st, d, caller, now).0; y.Id() in st'.nodes && Absorbs(st'.nodes[y.Id()], y)
  {
    hide MergeNode, ApplyDiff, Committed, ApplyAll, Refusal, NodeWrites, PutNodes, Planned, Absorbs, PlanEdge;
    PassedIsWritten(scheme, st, d, caller, now);
    if Refusal(scheme, st, d, caller, now).None? {
      var id, c := y.Id(), Committed(st, d, caller, now);
      var sup := Planned(st, d.nodes, d.edges, caller, now, SupersedeEdge);
      CommittedRows(st, d, caller, now);
      NodesAfter(st, d.nodes, caller, now, id);
      if i :| WritesNode(st, d.nodes, caller, now, i, id) && c.nodes[id] == PlanNode(st, d.nodes[i], caller, now).node {
        var x := Incoming(d.nodes[i], caller == Some(d.nodes[i].author), now);
        AbsorbsMore(st.nodes[id], x, y);
      }
      SupersessionsOnly(c, sup);
      if Written(st, d, caller, now).nodes[id] != c.nodes[id] {
        RetirementAbsorbs(c.nodes[id], Written(st, d, caller, now).nodes[id], y);
      }
    }
  }

  /** What a run by others leaves: ids and rows, the caller's own edges exactly, and everything
      a stored node absorbed. */
  ghost predicate Kept(st: State, st': State, a: Bytes) {
    && Keyed(st) && Keyed(st') && st.nodes.Keys <= st'.nodes.Keys && st.edges.Keys <= st'.edges.Keys
    && (forall k :: k in st.edges && st.edges[k].provenance.asserter == a ==> st'.edges[k] == st.edges[k])
    && (forall y: MemoryNode :: y.Id() in st.nodes && Absorbs(st.nodes[y.Id()], y) ==> Absorbs(st'.nodes[y.Id()], y))
  }

  lemma KeptIsKeyed(st: State, st': State, a: Bytes)
    requires Kept(st, st', a)
    ensures Keyed(st')
  {
  }

  lemma KeptChain(st: State, mid: State, st': State, a: Bytes)
    requires Kept(st, mid, a) && Kept(mid, st', a)
    ensures Kept(st, st', a)
  {
    hide Absorbs;
  }

  lemma {:induction false} RunKeeps(scheme: SignatureScheme, st: State, steps: seq<Step>, a: Bytes)
    requires Keyed(st) && SubmittedByOthers(steps, a)
    ensures Kept(st, Run(scheme, st, steps), a)
    decreases |steps|
  {
    hide ApplyDiff, Absorbs, Keyed;
    if steps != [] {
      var s := steps[0];
      var mid := Next(scheme, st, s);
      OnlyAuthorsChange(scheme, st, s.diff, s.caller, s.now);
      forall y: MemoryNode | y.Id() in st.nodes && Absorbs(st.nodes[y.Id()], y) ensures Absorbs(mid.nodes[y.Id()], y) {
        MergeKeepsAbsorbing(scheme, st, s.diff, s.caller, s.now, y);
      }
      assert Kept(st, mid, a);
      RunKeeps(scheme, mid, steps[1..], a);
      KeptChain(st, mid, Run(scheme, st, steps), a);
    }
  }

  // ---- exactly when a diff is refused because of a run ----

  /** An author's own node is never refused, whatever is stored. */
  lemma OwnNodeIsNeverRefused(st: State, n: MemoryNode, now: nat)
    ensures !PlanNode(st, n, Some(n.author), now).RefuseNode?
  {
  }

  /** The stored node already says all a relayed copy can: the claim is held, its tier is no
      higher, its times are no later than the floored ones, its signature comes first and its
      anchors are in order. */
  ghost predicate SaysAll(stored: MemoryNode, n: MemoryNode, now: nat) {
    var floor := SatSub(now, RELAY_CLOCK_SKEW_MS);
    && (At(stored.confidence, 0) == True || At(stored.confidence, 0) == Both)
    && (stored.trustTier == AgentAsserted || stored.trustTier == InferredAdvisory)
    && stored.validFrom <= Max(n.validFrom, floor) && stored.observedAt <= Max(n.observedAt, floor)
    && (n.signature.Some? ==> stored.signature.Some? && LexLe(stored.signature.value, n.signature.value))
    && Canonical(stored.anchors)
  }

  /** Those are exactly the fields in which a relayed copy can change a stored node. */
  lemma RelayedCopyAbsorbed(stored: MemoryNode, n: MemoryNode, now: nat)
    requires IsAsAsserted(n, now)
    ensures Absorbs(stored, Incoming(n, false, now)) <==> SaysAll(stored, n, now)
  {
    hide Canonical;
    UnionSpec(stored.anchors, []);
    UnionIsJoin(stored.anchors, stored.anchors, []);
    ClaimJoined(stored.confidence);
    SignatureJoined(stored.signature, n.signature);
  }

  lemma ClaimJoined(c: seq<Belnap>)
    ensures JoinConfidence(c, [True]) == c <==> At(c, 0) == True || At(c, 0) == Both
  {
    var j := JoinConfidence(c, [True]);
    assert c != [] ==> |j| == |c| && j[0] == c[0].Join(True);
    assert c == [] ==> |j| == 1;
  }

  lemma SignatureJoined(a: Option<Bytes>, b: Option<Bytes>)
    ensures MinOptBytes(a, b) == a <==> (b.Some? ==> a.Some? && LexLe(a.value, b.value))
  {
    if a.Some? && b.Some? { LexTotal(a.value, b.value); }
  }

  /** A relayed node of the diff that the run brought in, in a state the relayed copy would change. */
  ghost predicate Preceded(st: State, st': State, n: MemoryNode, a: Bytes, now: nat) {
    n.author != a && n.Id() !in st.nodes && n.Id() in st'.nodes && !SaysAll(st'.nodes[n.Id()], n, now)
  }

  /** The run wrote another asserter's edge under the key, and the diff's is more than a proposal
      against a load-bearing edge. */
  ghost predicate Occupied(st: State, st': State, e: Edge, a: Bytes) {
    var k := e.Key();
    && !SameEdgeRow(st, st', k) && k in st'.edges
    && st'.edges[k] != e && st'.edges[k].provenance.asserter != a && !(e.quarantined && !st'.edges[k].quarantined)
  }

  /** Contesting edges that only the target's author may bring. */
  predicate AuthorOnly(e: Edge, a: Bytes, now: nat) {
    && NeedsSecondParty(e.kind)
    && if e.quarantined
       then e.provenance.asserter != a || (e.kind == Supersedes && AbsDiff(e.provenance.at, now) > RELAY_CLOCK_SKEW_MS)
       else e.kind == Supersedes
  }

  /** The run made the target of such an edge known as someone else's, or changed the row that
      had made the edge a no-op. */
  ghost predicate Exposed(st: State, st': State, ns: seq<MemoryNode>, e: Edge, a: Bytes, now: nat) {
    var k := e.Key();
    && AuthorOnly(e, a, now) && TargetAuthor(st', ns, e.to).Some? && TargetAuthor(st', ns, e.to) != Some(a)
    && (k in st'.edges ==>
          st'.edges[k] != e && st'.edges[k].provenance.asserter == a && !(e.quarantined && !st'.edges[k].quarantined))
    && (TargetAuthor(st, ns, e.to).None? || !SameEdgeRow(st, st', k))
  }

  ghost predicate Overtaken(st: State, st': State, d: MemoryDiff, a: Bytes, now: nat) {
    || (exists n :: n in d.nodes && Preceded(st, st', n, a, now))
    || (exists e :: e in d.edges && (Occupied(st, st', e, a) || Exposed(st, st', d.nodes, e, a, now)))
  }

  lemma NodePlanAfter(st: State, st': State, n: MemoryNode, a: Bytes, now: nat)
    requires Kept(st, st', a) && !PlanNode(st, n, Some(a), now).RefuseNode?
    ensures PlanNode(st', n, Some(a), now).RefuseNode? <==> Preceded(st, st', n, a, now)
  {
    hide MergeNode, Absorbs, Keyed;
    var x := Incoming(n, a == n.author, now);
    assert x.Id() == n.Id();
    if n.Id() in st.nodes { ChangedMeansNotAbsorbed(st.nodes[n.Id()], x); }
    if n.Id() in st'.nodes {
      ChangedMeansNotAbsorbed(st'.nodes[n.Id()], x);
      if n.Id() !in st.nodes && n.author != a { RelayedCopyAbsorbed(st'.nodes[n.Id()], n, now); }
    }
  }

  lemma SameTarget(st: State, st': State, ns: seq<MemoryNode>, to: ContentHash, a: Bytes)
    requires Kept(st, st', a)
    ensures TargetAuthor(st, ns, to).Some? ==> TargetAuthor(st', ns, to) == TargetAuthor(st, ns, to)
  {
    hide Absorbs, FirstWithId;
  }

  lemma EdgePlanAfter(st: State, st': State, ns: seq<MemoryNode>, e: Edge, a: Bytes, now: nat)
    requires Kept(st, st', a) && !PlanEdge(st, ns, e, Some(a), now).RefuseEdge?
    ensures PlanEdge(st', ns, e, Some(a), now).RefuseEdge? <==>
      Occupied(st, st', e, a) || Exposed(st, st', ns, e, a, now)
  {
    hide Absorbs, TargetAuthor, Keyed, AbsDiff;
    SameTarget(st, st', ns, e.to, a);
  }

  lemma {:induction false} EdgeRefusalMeans(st: State, ns: seq<MemoryNode>, es: seq<Edge>, caller: Option<Bytes>,
                                            now: nat)
    ensures EdgeRefusal(st, ns, es, caller, now).Some? <==>
      exists e :: e in es && PlanEdge(st, ns, e, caller, now).RefuseEdge?
  {
    hide PlanEdge;
    if es != [] {
      EdgeRefusalMeans(st, ns, es[..|es| - 1], caller, now);
      assert es == es[..|es| - 1] + [es[|es| - 1]];
    }
  }

  lemma NodeRefusalMeans(st: State, ns: seq<MemoryNode>, caller: Option<Bytes>, now: nat)
    ensures NodeRefusal(st, ns, caller, now) <==> exists n :: n in ns && PlanNode(st, n, caller, now).RefuseNode?
  {
    hide PlanNode;
    if n :| n in ns && PlanNode(st, n, caller, now).RefuseNode? {
      var i :| 0 <= i < |ns| && ns[i] == n;
    }
  }

  /** A diff that passes the checks is refused after a run of merges by others exactly when the
      run overtook one of its relayed nodes or one of its edges. */
  lemma RefusedAfterRun(scheme: SignatureScheme, st: State, steps: seq<Step>, d: MemoryDiff, a: Bytes, now: nat)
    requires Keyed(st) && SubmittedByOthers(steps, a) && Refusal(scheme, st, d, Some(a), now).None?
    ensures Refusal(scheme, Run(scheme, st, steps), d, Some(a), now).Some? <==>
      Overtaken(st, Run(scheme, st, steps), d, a, now)
  {
    hide PlanNode, PlanEdge, Run, NodeRefusal, EdgeRefusal, VerifyNodes, VerifyEdges, Kept, Preceded, Occupied, Exposed;
    var st', caller := Run(scheme, st, steps), Some(a);
    RunKeeps(scheme, st, steps, a);
    NodeRefusalMeans(st, d.nodes, caller, now);
    NodeRefusalMeans(st', d.nodes, caller, now);
    EdgeRefusalMeans(st, d.nodes, d.edges, caller, now);
    EdgeRefusalMeans(st', d.nodes, d.edges, caller, now);
    forall n | n in d.nodes ensures PlanNode(st', n, caller, now).RefuseNode? <==> Preceded(st, st', n, a, now) {
      NodePlanAfter(st, st', n, a, now);
    }
    forall e | e in d.edges
      ensures PlanEdge(st', d.nodes, e, caller, now).RefuseEdge? <==>
        Occupied(st, st', e, a) || Exposed(st, st', d.nodes, e, a, now)
    {
      EdgePlanAfter(st, st', d.nodes, e, a, now);
    }
  }

  // ---- front-running ----

  /** Front-running, in full: a diff of the author's that passes the checks, merged after any run of
      merges by others, is refused and changes nothing exactly when the run overtook an edge or a
      relayed node of it; else it leaves its own nodes as a direct insert would. */
  lemma FrontRunIsHarmless(scheme: SignatureScheme, st: State, steps: seq<Step>, d: MemoryDiff, i: nat, now: nat)
    returns (got: MemoryNode)
    requires Keyed(st) && DistinctItems(d) && i < |d.nodes| && d.nodes[i].Id() !in st.nodes
    requires SubmittedByOthers(steps, d.nodes[i].author)
    requires Refusal(scheme, st, d, Some(d.nodes[i].author), now).None?
    ensures var n, id, relayed := d.nodes[i], d.nodes[i].Id(), Run(scheme, st, steps);
      var (st', r) := ApplyDiff(scheme, relayed, d, Some(n.author), now);
      if Overtaken(st, relayed, d, n.author, now)
      then st' == relayed && (r == Err(NotAuthor) || r == Err(EdgePromotion))
      else
        && AsInserted(scheme, st, steps, n, got)
        && id in st'.nodes && (st'.nodes[id] == got || (IsRetirement(got, st'.nodes[id]) && CarriesSupersession(d, id)))
  {
    hide Run, Overtaken, AsInserted, Refusal, DistinctItems, IsRetirement;
    var n := d.nodes[i];
    var relayed := Run(scheme, st, steps);
    got := n;
    RefusedAfterRun(scheme, st, steps, d, n.author, now);
    if Overtaken(st, relayed, d, n.author, now) {
      Passed(scheme, st, d, Some(n.author), now);
      RefusedByRule(scheme, relayed, d, Some(n.author), now);
    } else {
      got := AuthorsMergeLands(scheme, st, steps, d, i, now);
    }
  }

  lemma RefusedByRule(scheme: SignatureScheme, st: State, d: MemoryDiff, caller: Option<Bytes>, now: nat)
    requires VerifyNodes(scheme, d.nodes).None? && VerifyEdges(scheme, d.edges).None?
    ensures var err := Refusal(scheme, st, d, caller, now);
      err.Some? ==> err.value == NotAuthor || err.value == EdgePromotion
  {
    hide PlanNode, VerifyNodes, VerifyEdges;
    EdgeRefusalKind(st, d.nodes, d.edges, caller, now);
  }

  lemma {:induction false} EdgeRefusalKind(st: State, ns: seq<MemoryNode>, es: seq<Edge>, caller: Option<Bytes>,
                                           now: nat)
    ensures var err := EdgeRefusal(st, ns, es, caller, now);
      err.Some? ==> err.value == NotAuthor || err.value == EdgePromotion
  {
    if es != [] { EdgeRefusalKind(st, ns, es[..|es| - 1], caller, now); }
  }

  /** Nodes of one's own, merged without edges, always land. */
  lemma OwnNodesAlwaysPass(scheme: SignatureScheme, st: State, ns: seq<MemoryNode>, a: Bytes, now: nat)
    requires VerifyNodes(scheme, ns).None? && forall i :: 0 <= i < |ns| ==> ns[i].author == a
    ensures Refusal(scheme, st, MemoryDiff(ns, []), Some(a), now).None?
  {
    hide PlanNode, VerifyNodes;
    forall i | 0 <= i < |ns| ensures !PlanNode(st, ns[i], Some(a), now).RefuseNode? {
      OwnNodeIsNeverRefused(st, ns[i], now);
    }
  }

  /** An edge can be overtaken: someone stores a proposal under the key of an author's
      load-bearing edge, and the author's diff, which would have passed, is refused with its node. */
  lemma ProposalBlocksEdge(scheme: SignatureScheme, st: State, n: MemoryNode, e: Edge, x: Edge, b: Bytes, now: nat)
    requires Keyed(st) && n.Id() !in st.nodes && e.Key() !in st.edges && x.Key() == e.Key() && e.kind == References
    requires !e.quarantined && x.quarantined && e.provenance.asserter == n.author != b == x.provenance.asserter
    requires VerifyNode(scheme, n).None? && VerifyEdge(scheme, e).None? && VerifyEdge(scheme, x).None?
    ensures var d := MemoryDiff([n], [e]);
      var (relayed, r) := ApplyDiff(scheme, st, MemoryDiff([], [x]), Some(b), now);
      && Refusal(scheme, st, d, Some(n.author), now).None? && r.Ok? && n.Id() !in relayed.nodes
      && ApplyDiff(scheme, relayed, d, Some(n.author), now) == (relayed, Err(EdgePromotion))
  {
    hide VerifyNode, VerifyEdge, VerifyEdges, EdgeRefusal, PlanEdge, PlanNode, Planned, ApplyAll, Committed;
    var relayed := ApplyDiff(scheme, st, MemoryDiff([], [x]), Some(b), now).0;
    ProposalPlan(st, x, b, now);
    OnePlainEdge(scheme, st, x, Some(b), now);
    assert [n][..0] == [] && VerifyNodes(scheme, [n][..0]).None? && VerifyNodes(scheme, [n]).None?;
    OwnNodeIsNeverRefused(st, n, now);
    OwnNodeIsNeverRefused(relayed, n, now);
    BlockedPlan(st, relayed, n, e, x, now);
    OneEdge(scheme, st, [n], e, Some(n.author), now);
    OneEdge(scheme, relayed, [n], e, Some(n.author), now);
  }

  lemma ProposalPlan(st: State, x: Edge, b: Bytes, now: nat)
    requires x.Key() !in st.edges && x.kind == References && x.quarantined
    ensures PlanEdge(st, [], x, Some(b), now) == PlainEdge
  {
  }

  lemma BlockedPlan(st: State, st': State, n: MemoryNode, e: Edge, x: Edge, now: nat)
    requires e.Key() !in st.edges && st'.edges == st.edges[e.Key() := x] && e.kind == References
    requires !e.quarantined && x.quarantined && e.provenance.asserter == n.author != x.provenance.asserter
    ensures PlanEdge(st, [n], e, Some(n.author), now) == PlainEdge
    ensures PlanEdge(st', [n], e, Some(n.author), now) == RefuseEdge(EdgePromotion)
  {
  }
}
